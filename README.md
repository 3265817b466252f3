# Bazzite release feed: paginated cursor and event-store hook

This project models the two pieces of release-feed logic in the Bazzite
changelog plugin (bazzite-buddy) and proves properties of them.

- **The paginated release cursor** (`fetchReleases` in `src/FetchReleases.ts`).
  It is an async generator that reads the GitHub releases list page by page,
  10 releases per page, starting at page 1. It sorts each page newest first and
  yields the releases that pass a prerelease test. A failed request, a non-ok
  response, a body that is not an array, and an empty page all end the feed for
  good. The model is the class `FetchReleases.ReleaseFeed`. Its fields are the
  generator's `currentPage` and `done`, plus a ghost log of the requests sent.
  `NextPage` runs one turn of the `while (!done)` loop. Its inner `for` loop is
  the method `YieldMatching`, proved against the filter function `Select`.
- **The hook on the host's `InternalLoadAdjacentPartnerEvents`**
  (`src/PartnerEventStorePatch.tsx`). For the SteamOS app (id 1675200), when the
  original result is an array, the hook does four things:
  - It empties that array.
  - Inside the exclusive section, it fills the module-level `releases`/`channel`
    cache while the cache holds no release. It picks the filter and channel
    from the request's `require_tags`. A fill whose filter keeps nothing
    sets the channel but leaves the cache empty, so the next call fetches
    again and may choose another channel.
  - It projects each cached release into a clan event, and inserts the event
    into the host's known-events map only when its gid is absent.
  - It refills the array with the map's entry for each cached release.

  The cache is the class `ReleaseCache`, and `FillIfEmpty` is the exclusive
  section. The host's map is the class `PartnerEventStore`, and the result array
  is the class `EventArray`. The whole callback is the method
  `LoadAdjacentPartnerEvents`. The pure functions `Refreshed`, `ToEvent`,
  `InsertAbsent` and `Entries` describe what the callback does, and the lemmas
  are proved about them.

Both files sort with `Array.prototype.sort`. The comparator subtracts the
`getTime()` values of `new Date(a.created_at)` and `new Date(b.created_at)`,
where `created_at` is an ISO date string. The model takes that conversion as
already done: `createdAt` is the millisecond timestamp (see "Dates" under
"## Left out"). That sort is stable, so `Releases.SortByNewest` models it as a
stable insertion sort on those timestamps. `SortByNewestStable` proves the
stability, and `SelectSortCommute` proves that filtering the sorted page gives
the same list as sorting the filtered page.

Network results, the branch name and the markdown conversion are parameters:

- A fetch outcome is `Option<seq<Release>>`. `None` stands for a thrown request
  (an abort included), a non-ok response, or a body that is not an array.
- The cursor asks a `Network` oracle from `PageRequest(page, perPage)` to a
  fetch outcome.
- The hook takes the single response as an argument.
- `toBBCode: string -> string` stands for the markdown → HTML → BBCode
  pipeline.

The code is modelled as written, including two behaviours that a reader might
not expect:

- In `fetchReleases` the flag called `testing` is `branch === "stable"`
  (src/FetchReleases.ts:12). So the "stable" branch yields only prereleases,
  and the branch that `isBazziteBranchTesting` recognises ("testing") yields
  only full releases. `FetchReleases.BranchSelection` states this.
- When the cache cannot be filled (failed or empty fetch), the hook still
  empties the host's array and returns it empty
  (src/PartnerEventStorePatch.tsx:63, 102-103).

## Model

| member | source | states |
|---|---|---|
| `Releases.SelectMembers` | src/FetchReleases.ts:39-42 | a release is in the filtered list iff it is in the list and passes the prerelease test |
| `Releases.SelectCounts` | src/FetchReleases.ts:39-42 | filtering neither duplicates nor drops: a kept release occurs as often as in the input, a rejected one not at all |
| `Releases.SelectAppend` | src/FetchReleases.ts:39-42 | filtering a list extended by one release extends the result by that release exactly when it passes |
| `Releases.SelectAll` | src/PartnerEventStorePatch.tsx:96-98 | with no channel tag the whole sorted response is kept |
| `Releases.SortByNewestCorrect` | src/FetchReleases.ts:37 | the sorted page is ordered by `created_at`, newest first, and is a permutation of the page |
| `Releases.SortByNewestStable` | src/FetchReleases.ts:37 | the sort is stable: for every timestamp, the releases created at that time come out in the order they had in the page |
| `Releases.SelectKeepsOrder` | src/FetchReleases.ts:37-42 | filtering a newest-first list keeps it newest first |
| `Releases.SelectInsert` | src/PartnerEventStorePatch.tsx:88-95 | inserting a release into a newest-first list and then filtering is the same as filtering and then inserting it when it is kept |
| `Releases.SelectSortCommute` | src/PartnerEventStorePatch.tsx:88-99 | because the sort is stable, sorting then filtering gives the same list as filtering then sorting |
| `Releases.SortedSelection` | src/FetchReleases.ts:37-42 | a sorted and filtered page is newest first, holds only kept releases, and holds each kept release of the page as often as the page does |
| `Decimal.DecimalString` | src/PartnerEventStorePatch.tsx:119 | `String(id)` is a non-empty string of digits that starts with '0' only for id 0 |
| `Decimal.ParseDecimalString` | src/PartnerEventStorePatch.tsx:119 | the gid reads back as the release id |
| `Decimal.DecimalStringInjective` | src/PartnerEventStorePatch.tsx:119 | distinct release ids give distinct gids |
| `FetchReleases.IsBranchTesting` | src/FetchReleases.ts:5-12 | the branch `isBazziteBranchTesting` recognises is never the one for which `fetchReleases` sets its `testing` flag, so on that branch the feed keeps full releases |
| `FetchReleases.PageYieldSpec` | src/FetchReleases.ts:37-42 | what one page yields is newest first, every item satisfies `testing ? prerelease : !prerelease`, and each passing release of the page is yielded exactly as often as it occurs there |
| `FetchReleases.BranchSelection` | src/FetchReleases.ts:12 | since `testing` is `branch === "stable"`, the stable branch yields only prereleases, and the "testing" branch only full releases |
| `FetchReleases.YieldMatching` | src/FetchReleases.ts:39-42 | the `for` loop yields exactly the filtered subsequence of the sorted page, in order |
| `FetchReleases.ReleaseFeed.constructor` | src/FetchReleases.ts:11-14 | the cursor starts at page 1, not done, with `testing` set for the "stable" branch |
| `FetchReleases.ReleaseFeed.NextPage` | src/FetchReleases.ts:16-43 | pages are requested 1, 2, 3, … with `per_page=10`, and each turn moves the page counter up by exactly one. A failed or empty page sets `done`, while a non-empty page that is filtered out completely does not. A non-empty page yields its sorted, filtered releases. Once `done` is set, nothing more is requested or yielded |
| `PartnerEventStorePatch.RefreshedFill` | src/PartnerEventStorePatch.tsx:88-99 | filling the empty cache from a non-empty page sets the channel the tags choose, and leaves the page sorted newest first and then filtered. By stability this equals the filtered page sorted newest first. Each release the filter keeps occurs as often as in the page, and no other release occurs |
| `PartnerEventStorePatch.StableTagKeepsFullReleases` | src/PartnerEventStorePatch.tsx:90-92 | a "stablechannel" tag wins over any other tag: the cache keeps exactly the full releases of the page, on the stable channel |
| `PartnerEventStorePatch.BetaTagKeepsPrereleases` | src/PartnerEventStorePatch.tsx:93-95 | without "stablechannel", a "betachannel" or "previewchannel" tag keeps exactly the prereleases, on the beta channel |
| `PartnerEventStorePatch.NoTagKeepsAll` | src/PartnerEventStorePatch.tsx:96-98 | with none of the three tags the cache is the whole page sorted newest first, on the stable channel |
| `PartnerEventStorePatch.RefreshedGood` | src/PartnerEventStorePatch.tsx:66-99 | the exclusive section keeps the cache newest first, with a channel whenever it is non-empty, and with only prereleases on the beta channel |
| `PartnerEventStorePatch.FilledCacheIsFinal` | src/PartnerEventStorePatch.tsx:66-67 | once the cache is non-empty, later calls leave releases and channel unchanged, whatever their tags and whatever the network would answer |
| `PartnerEventStorePatch.EmptyFillRefetches` | src/PartnerEventStorePatch.tsx:66-99 | a fill whose filter keeps none of the page leaves the cache empty with the chosen channel set. The next call with a non-empty page then fills the cache exactly as a first call would, from its own tags |
| `PartnerEventStorePatch.EpochSeconds` | src/PartnerEventStorePatch.tsx:106 | `Math.floor(ms / 1000)` lies within the second that contains `ms` |
| `PartnerEventStorePatch.ToEventFields` | src/PartnerEventStorePatch.tsx:118-176 | the gid reads back as the release id. Start, end, post, update and last-modified times are all the creation second. The headline is "Bazzite " + name, and the tags are ["patchnotes", channel] |
| `PartnerEventStorePatch.InsertAbsentKeeps` | src/PartnerEventStorePatch.tsx:179-184 | an event already known to the host is never replaced |
| `PartnerEventStorePatch.InsertAbsentKeys` | src/PartnerEventStorePatch.tsx:179-184 | every offered gid becomes a key, and no other key is added |
| `PartnerEventStorePatch.InsertAbsentFirst` | src/PartnerEventStorePatch.tsx:179-184 | a new gid maps to the first event offered with it |
| `PartnerEventStorePatch.EntriesStep` | src/PartnerEventStorePatch.tsx:179-187 | inserting the next release's event leaves the earlier pushed entries as they were and appends the entry for its gid |
| `PartnerEventStorePatch.FreshReleasesComeBack` | src/PartnerEventStorePatch.tsx:105-188 | for releases with distinct ids that the host does not know, the rebuilt array is exactly their projected events, in cache order |
| `PartnerEventStorePatch.ReleaseCache.constructor` | src/PartnerEventStorePatch.tsx:43-44 | the cache starts empty, with no channel |
| `PartnerEventStorePatch.ReleaseCache.FillIfEmpty` | src/PartnerEventStorePatch.tsx:65-100 | a fetch happens only while the cache is empty. A failed or empty fetch leaves the cache as it was. Otherwise the cache becomes the sorted and filtered page with its channel, and the cache invariant is kept |
| `PartnerEventStorePatch.PublishEvents` | src/PartnerEventStorePatch.tsx:105-188 | the `for` loop leaves the known-events map as the events of the releases offered in order, each inserted only when its gid is absent, and every release's gid known. The emptied array ends up holding the map's entry for each release, in order |
| `PartnerEventStorePatch.LoadAdjacentPartnerEvents` | src/PartnerEventStorePatch.tsx:50-191 | other apps and non-array results pass through with nothing touched. Otherwise the array is emptied, the cache is filled if it holds no release, and only events with absent gids are inserted. The array then ends with one map entry per cached release, in cache order (empty when the cache is empty) |

## Left out

- Network, JSON parsing, `Response`, `AbortSignal`: a fetch outcome is an argument (`Option<seq<Release>>`, or a `Network` oracle for the cursor). A transient error therefore looks exactly like the end of the feed, as in the code.
- `getBazziteBranch` (an RPC to the plugin backend) is the constructor's `branch` argument; main.py is not part of this model.
- Dates: `created_at` is an ISO date string that the code parses with `new Date(...).getTime()`; the model takes the parsed value, an integer number of milliseconds. Unparsable dates (`NaN`) and their effect on the comparator are not modelled.
- Generator suspension: `ReleaseFeed.NextPage` yields a whole page at a time. The item-by-item hand-over of `yield` is not modelled, nor is the fact that the async generator may keep fetching pages whose items are all filtered out.
- Null or non-object page entries: pages are lists of `Release` values. In the code the comparator would throw on a null entry, and the `release &&` test would skip it.
- In-place sorting: `responseJson.sort(...)` is modelled by the function `SortByNewest` on values. So is the aliasing of `releases` to the response array in the default branch.
- `require_tags` is modelled as a list of strings. A string value, where `includes` would test for a substring, is not modelled.
- The markdown → HTML → BBCode conversion (unified, remark, `html2bbcode`) is the parameter `toBBCode`.
- Host plumbing: `findModuleExport`, `afterPatch`, `SteamID` and the await of the original result are not modelled. `InsertEventModelFromClanEventData` is modelled as storing the event under its gid, so the entry that is pushed always exists.
- The `Mutex`/`runExclusive` serialisation: each call is one sequential, atomic step, so concurrency is not modelled.
- The constant event fields other than gid, clan ids, name, type, app id, times, headline, body and tags (`jsondata` and the zero/empty fields) are not modelled.
- `String(id)` is modelled as the plain decimal numeral of a non-negative integer. Exponent notation for ids of 10^21 and above is not modelled.
- src/index.tsx (UI component) and rollup.config.js (build configuration) have no modelled logic.
