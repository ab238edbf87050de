# Lost & Found Hub — a Dafny model of its item logic

Lost & Found Hub is a client-side listing board. People post items they have
lost or found, browse and filter the list, and mark items resolved ("reunited").
This project models the logic under the user interface. The top-level
component owns the item list and two operations on it, `addItem` and
`markResolved`. The browse view filters the list with five criteria, counts
the items by status and can reset its filters. The home page shows the six
newest posts and the number of resolved items. Three form validators check
non-emptiness, an email shape and a phone shape.

Files, one module each:

- `app.dfy` — module `App` (src/App.tsx). The `Item` record has its two-valued
  `Status` and nine-valued `Category`. Its optional `imageUrl` and `resolved`
  properties are `Option`s, so an absent `resolved` differs from an explicit
  `false`. `Submission` is the record minus `id` and `datePosted`. `Compose`
  builds the new record and `MarkedResolved` is the `map` that `markResolved`
  runs. The `ItemStore` class holds the `items` list as a `seq<Item>`. Its
  methods `AddItem` and `MarkResolved` reassign that list. Its invariant is
  that ids are pairwise distinct.
- `browse.dfy` — module `BrowseItems` (src/components/BrowseItems.tsx). It
  holds the filter `Criteria`, the five-clause `Matches` predicate, `Filter`,
  the three counters and `ClearFilters`.
- `home.dfy` — module `HomePage` (src/components/HomePage.tsx). It holds
  `RecentItems` (the first six items) and `SuccessStories` (the resolved count).
- `validation.dfy` — module `Validation` (src/utils/validation.ts). Each of the
  three validators is a character-level recogniser. The email pattern is a
  deterministic automaton. Each recogniser has a lemma that says exactly which
  strings it accepts.
- `text.dfy` — module `Text`. It models the JavaScript string built-ins the
  code relies on. One is the whitespace class shared by `trim()` and the
  regular-expression escape `\s`: every ECMAScript WhiteSpace and
  LineTerminator code point. The others are `toLowerCase()` and `includes()`.

Four behaviours of the code worth noting:

- `addItem` spreads every submitted property into the new record, `resolved`
  included. It does not force `resolved` to be absent or false.
- The browse view starts with `showResolved` false. Neutral text, status and
  category criteria give back the whole list when `showResolved` is set, and
  the unresolved items otherwise.
- `contactPhone` is a required string in src/App.tsx:20. The components use
  that declaration, not the one in src/types/index.ts.
- The id comes from the clock and can collide. The model takes the id as a
  parameter, and `AddItem` requires that no stored item has it yet.

## Model

| member | source | states |
|---|---|---|
| App.IsResolved | src/components/BrowseItems.tsx:55 | defines the truthiness of the optional `item.resolved`: only an explicit `true` counts; absent and `false` do not |
| App.Compose | src/App.tsx:45-50 | the new record's submitted part equals the submission; `id` and `datePosted` are the supplied values |
| App.ComposeSubmitted | src/App.tsx:46-50 | a record is rebuilt exactly from its submitted part, its id and its posting time |
| App.ResolveIfMatch | src/App.tsx:56 | defines the `map` callback: an item with the given id is copied with `resolved` set to `true`; any other item is returned as it is |
| App.MarkedResolved | src/App.tsx:55-57 | `map` keeps the list length |
| App.MarkedResolvedAt | src/App.tsx:54-58 | at every position: an item with the id gets `resolved = true` and keeps all its other fields; any other item is unchanged; ids keep their places |
| App.MarkResolvedAbsent | src/App.tsx:55-57 | resolving an id that no item has leaves the list unchanged |
| App.MarkResolvedIdempotent | src/App.tsx:55-57 | resolving the same id twice equals resolving it once |
| App.MarkResolvedKeepsIds | src/App.tsx:55-57 | the ids, in list order, are the same before and after |
| App.MarkResolvedMonotone | src/App.tsx:54-58 | an item that was resolved is still resolved afterwards |
| App.MarkResolvedCount | src/App.tsx:54-58 | resolving never lowers the number of resolved items |
| App.MarkResolvedFindsOne | src/App.tsx:54-58 | when ids are distinct, resolving the id of the item at position `i` changes that position only (it gets `resolved = true`); the items before and after it are unchanged |
| App.PostThenResolve | src/App.tsx:45-58 | posting under a fresh id and then resolving that id gives the posted record with `resolved = true`, followed by the older list unchanged |
| App.Count | src/components/BrowseItems.tsx:63-65 | `filter(p).length` is at most the list length |
| App.CountIsPositions | src/components/BrowseItems.tsx:63-65 | `filter(p).length` equals the number of positions whose item satisfies `p` |
| App.CountResolved | src/App.tsx:199 | the "items reunited" figure is the number of positions holding a resolved item, so it is at most the list length |
| App.ItemStore.constructor | src/App.tsx:30 | the store starts empty and valid |
| App.ItemStore.AddItem | src/App.tsx:45-52 | with a fresh id, the new list is the composed record followed by the old list unchanged; length grows by one; ids stay distinct |
| App.ItemStore.MarkResolved | src/App.tsx:54-58 | the new list is the `map` of the old one; the distinct-ids invariant is kept; in a valid store, the one item with the id is resolved and nothing else changes |
| BrowseItems.MatchesSearch | src/components/BrowseItems.tsx:34-37 | defines the search clause: an empty term passes; otherwise the lower-cased term must be in the lower-cased title or the lower-cased description |
| BrowseItems.MatchesChoice | src/components/BrowseItems.tsx:40-47 | defines the status and category clauses: `all` passes; otherwise the item's value must equal the chosen one |
| BrowseItems.MatchesLocation | src/components/BrowseItems.tsx:50-52 | defines the location clause: an empty filter passes; otherwise the lower-cased filter must be in the lower-cased location |
| BrowseItems.Matches | src/components/BrowseItems.tsx:32-60 | defines the predicate given to `filter`: the search, status, category and location clauses, and, when `showResolved` is false, not resolved |
| BrowseItems.Filter | src/components/BrowseItems.tsx:31-61 | the result is no longer than the input |
| BrowseItems.FilterIsSubsequence | src/components/BrowseItems.tsx:32 | the result is a subsequence of the input: only its items, in their order |
| BrowseItems.FilterSound | src/components/BrowseItems.tsx:32-60 | every kept item is an input item and passes all five clauses |
| BrowseItems.FilterComplete | src/components/BrowseItems.tsx:32-60 | every input item that passes all five clauses is kept |
| BrowseItems.FilterAppend | src/components/BrowseItems.tsx:32 | filtering a concatenation is concatenating the filtered parts, so input order is kept |
| BrowseItems.FilterClauses | src/components/BrowseItems.tsx:33-57 | clause by clause, for each kept item: a non-empty term (not trimmed) is found in the lower-cased title or description; the status and category match when they are not `all`; a non-empty location filter is found in the lower-cased location; with `showResolved` false the item is not resolved |
| BrowseItems.FilterLength | src/components/BrowseItems.tsx:191 | the number shown is the number of input items that pass the predicate |
| BrowseItems.NoItemsFound | src/components/BrowseItems.tsx:196 | the result is empty exactly when no input item passes |
| BrowseItems.SearchIgnoresTermCase | src/components/BrowseItems.tsx:34-35 | lower-casing the search term first does not change the outcome |
| BrowseItems.ClearFilters | src/components/BrowseItems.tsx:204-209 | search, status, category and location become neutral; `showResolved` is kept |
| BrowseItems.Unresolved | src/components/BrowseItems.tsx:55-57 | the list of unresolved items is no longer than the input |
| BrowseItems.NeutralFilter | src/components/BrowseItems.tsx:31-61 | with neutral criteria the result is the whole list if `showResolved` is set, and the unresolved items otherwise |
| BrowseItems.ClearedFilter | src/components/BrowseItems.tsx:204-209 | after Clear Filters the view shows the whole list or the unresolved items, as `showResolved` says |
| BrowseItems.InitialFilter | src/components/BrowseItems.tsx:25-29 | with the initial criteria the view shows exactly the unresolved items |
| BrowseItems.Initial | src/components/BrowseItems.tsx:25-29 | defines the view's starting criteria: empty search term, status and category `all`, empty location, `showResolved` false |
| BrowseItems.IsOpenLost | src/components/BrowseItems.tsx:63 | defines the `lostCount` callback: the item is lost and not resolved |
| BrowseItems.IsOpenFound | src/components/BrowseItems.tsx:64 | defines the `foundCount` callback: the item is found and not resolved |
| BrowseItems.LostCount | src/components/BrowseItems.tsx:63 | the number of unresolved lost items |
| BrowseItems.FoundCount | src/components/BrowseItems.tsx:64 | the number of unresolved found items |
| BrowseItems.ResolvedCount | src/components/BrowseItems.tsx:65 | the number of resolved items |
| BrowseItems.CountersPartition | src/components/BrowseItems.tsx:63-65 | the three counters add up to the list length, because a status is either lost or found |
| BrowseItems.OpenCounts | src/components/BrowseItems.tsx:63-64 | the lost and found counters together count the unresolved items |
| HomePage.RecentItems | src/components/HomePage.tsx:17 | the result has min(6, length) items, and they are the first items of the list in order |
| HomePage.RecentItemsPrefix | src/components/HomePage.tsx:17 | a list of at most six items is shown whole; a longer list is the shown six followed by the rest |
| HomePage.ShowsRecentPosts | src/components/HomePage.tsx:171 | defines the guard `recentItems.length > 0` on the Recent Posts section; its meaning is stated by HomePage.ShowsRecentPostsIff |
| HomePage.ShowsRecentPostsIff | src/components/HomePage.tsx:171 | the Recent Posts section appears exactly when the list is non-empty |
| HomePage.SuccessStories | src/components/HomePage.tsx:18 | the number of resolved items, at most the list length |
| Text.IsWhitespace | src/utils/validation.ts:4-12 | defines the whitespace that `\s` matches and `trim()` strips: every ECMAScript WhiteSpace and LineTerminator code point |
| Text.Contains | src/components/BrowseItems.tsx:34-35 | defines `includes` by trying each start position from left to right; its meaning is stated by Text.ContainsAt |
| Text.LowerChar | src/components/BrowseItems.tsx:34-35 | the per-character fold of `toLowerCase`: the result is never an upper-case ASCII letter; an upper-case letter moves 32 code points up to its lower-case partner; every other character is kept |
| Text.Lower | src/components/BrowseItems.tsx:34-35 | `toLowerCase` keeps the length and folds each character |
| Text.LowerIdempotent | src/components/BrowseItems.tsx:34-35 | lower-casing twice is lower-casing once |
| Text.ContainsAt | src/components/BrowseItems.tsx:34-35 | `includes` holds exactly when the needle occurs at some position |
| Validation.TrimStart | src/utils/validation.ts:12 | leading whitespace is removed: the result is a suffix, what was dropped is whitespace, and the result does not start with whitespace |
| Validation.TrimEnd | src/utils/validation.ts:12 | trailing whitespace is removed: the result is a prefix, what was dropped is whitespace, and the result does not end with whitespace |
| Validation.Trim | src/utils/validation.ts:12 | `trim()` keeps a contiguous piece of the input and drops only whitespace around it; the piece neither starts nor ends with whitespace; it is empty exactly when the input is all whitespace |
| Validation.TrimSpan | src/utils/validation.ts:12 | the trimmed string is the input between a whitespace-only prefix and a whitespace-only suffix |
| Validation.TrimEmptyIff | src/utils/validation.ts:12 | trimming leaves nothing exactly when every character is whitespace |
| Validation.IsNonEmpty | src/utils/validation.ts:11-13 | `isNonEmpty` holds exactly when some character is not whitespace |
| Validation.IsValidEmail | src/utils/validation.ts:3-5 | `isValidEmail` holds exactly for the strings `L@X.Y` with `L`, `X` and `Y` non-empty and every character other than that one `@` outside `[\s@]` |
| Validation.EmailIff | src/utils/validation.ts:4 | the automaton accepts exactly the strings `L@X.Y` with `L`, `X` and `Y` non-empty and every character other than that one `@` outside `[\s@]` |
| Validation.EmailAccepted | src/utils/validation.ts:4 | an accepted address has no whitespace, exactly one `@`, a non-empty local part, and a dot after the `@` with characters on both sides |
| Validation.EmailRejected | src/utils/validation.ts:4 | input with whitespace, with no `@`, or with two `@` is rejected |
| Validation.EmailExamples | src/utils/validation.ts:4 | `a@b.com` is accepted; `a@b`, `@b.com` and `a@b.` are rejected |
| Validation.PhoneScanIff | src/utils/validation.ts:8 | the scan succeeds exactly on strings made only of digits, `-` and whitespace, and then counts all of them |
| Validation.IsValidPhone | src/utils/validation.ts:7-9 | `isValidPhone` holds exactly for an optional leading `+` followed by 7 to 15 digits, `-` or whitespace |
| Validation.PhoneIff | src/utils/validation.ts:8 | the scan-based recogniser accepts exactly an optional leading `+` followed by 7 to 15 digits, `-` or whitespace |
| Validation.PhoneLength | src/utils/validation.ts:8 | an accepted phone string has 7 to 16 characters |
| Validation.PhoneRejected | src/utils/validation.ts:8 | a string with any character that is not a digit, `-` or whitespace, except a leading `+`, is rejected; this covers letters of every script and a `+` past the first position |

## Left out

- Loading the list from `localStorage`, saving it after every change, and the `JSON.parse`/`JSON.stringify` round trip (src/App.tsx:33-43). These are browser storage and a foreign serialiser. The store starts empty, as `useState([])` does.
- `Date.now()` and `new Date().toISOString()` (src/App.tsx:48-49). The id and the posting time are parameters of `App.ItemStore.AddItem`.
- App.ItemStore.AddItem: requires an id that no stored item has. The clock-based id of the source gives no such guarantee, so two posts in one millisecond would share an id there.
- Text.Lower: folds only the ASCII letters `A`–`Z`. `toLowerCase` folds all Unicode letters, which needs the Unicode case tables.
- Strings are sequences of Unicode code points, not the UTF-16 code units of JavaScript, so a lone surrogate cannot be written in the model. On well-formed text `includes`, `trim()`, the classes `[^\s@]` and `[0-9\-\s]` and `length > 0` give the same answers either way.
- Navigation state (`currentView`, `selectedItem`, `viewItem`), the home page's unused quick-search state, the `darkMode` prop, and all JSX rendering and styling.
- `getDaysAgo` and `formatDate` in src/components/ItemCard.tsx and src/components/ItemDetail.tsx. They use the wall clock, floating-point division and locale formatting.
- The posting form's field state, its `handleReset` and the `FileReader` image preview (src/components/PostItem.tsx). The 300-character limit there is a browser `maxLength` attribute, not code.
- The contact form's `alert` (src/components/ItemDetail.tsx) and the toast component. They are notifications only.
- The footer's "items posted" figure (src/App.tsx:198) is the list length and needs no model.
