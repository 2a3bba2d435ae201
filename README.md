# Project listing of the ecosystem home page

This project models the home page of the ecosystem directory (`src/pages/index.tsx`).
The page lists the project catalog as cards. It filters the catalog by a selected tag
and a selected status (ALL, LIVE, TESTNET). It sorts the result by lower-cased name,
shows only the first `lastIndexLoaded` items, and attaches to each item the tag records
it refers to (`tagsRef`). Scrolling the last card into view raises the cursor by
`LOADED_STEPS` (10), which makes up to 10 more matching projects eligible; a listing that
already holds every matching project stays as it is. Picking a tag resets the page to
its first page and unflips every card. Clicking a card flips it.

Files and modules:

- `catalog.dfy` (`Catalog`): the records `Tag`, `Project`, `DisplayProject` and the
  status enumeration.
- `seqs.dfy` (`Seqs`): `Array.prototype.filter` (`Filter`), `slice(0, n)` (`Take`) and the
  subsequence relation used to state "kept in order".
- `name_order.dfy` (`NameOrder`): lower-casing and the lexicographic order that stands
  for `localeCompare` on lower-cased names.
- `sorting.dfy` (`Sorting`): `Array.prototype.sort` as a stable insertion sort over a
  comparator that is a total preorder.
- `pipeline.dfy` (`Pipeline`): the listing derivation run by the page's effect, stage by
  stage. `VisibleProjects` is the whole chain; lemmas state what each stage promises.
- `home_page.dfy` (`HomePage`): the page component as a class `Home`. Its fields are the
  state hooks. Its methods are the event handlers. Every handler that changes a filter or
  the cursor ends by deriving the listing again, the listing effect run synchronously;
  a card click changes only the flipped index, which the effect does not depend on.

The catalogs `allProjects` and `allTags` are static data outside the page. They are
`const` fields of `Home`, given to its constructor, so no handler can change them.

## Model

| member | source | states |
|---|---|---|
| `Pipeline.TagStage` | src/pages/index.tsx:28-32 | the tag filter keeps, in catalog order, exactly the projects that carry the selected tag's value, or every project when the "all" tag is selected |
| `Pipeline.TagKeeps` | src/pages/index.tsx:30 | the tag test: the "all" sentinel is selected, or the project's `tags` contain the selected tag's `value`; what it keeps is stated by `TagStage`, `TagStageAll` and `TagStageSelected` |
| `Pipeline.TagStageAll` | src/pages/index.tsx:30 | with the sentinel `allTags[0]` selected, the tag stage returns the catalog unchanged |
| `Pipeline.TagStageSelected` | src/pages/index.tsx:28-32 | with any other tag selected, a project is kept if and only if its `tags` contain the tag's `value` |
| `Pipeline.StatusStage` | src/pages/index.tsx:34-43 | the status filter keeps, in order, exactly the projects its status accepts |
| `Pipeline.StatusKeeps` | src/pages/index.tsx:35-42 | the status test, the three-way disjunction of ALL, live under LIVE, and testnet-live but not live under TESTNET; what it keeps is stated by the `StatusStage` lemmas |
| `Pipeline.StatusStageAll` | src/pages/index.tsx:36 | ALL keeps every project, in order |
| `Pipeline.StatusStageLive` | src/pages/index.tsx:37 | LIVE keeps exactly the projects with `isLive` |
| `Pipeline.StatusStageTestnet` | src/pages/index.tsx:38-41 | TESTNET keeps exactly the projects that are testnet-live and not live |
| `Pipeline.LiveAndTestnetDisjoint` | src/pages/index.tsx:37-41 | no project is listed under both LIVE and TESTNET |
| `Pipeline.NotLiveOnlyUnderAll` | src/pages/index.tsx:34-43 | a project that is neither live nor testnet-live is listed under a status if and only if the status is ALL |
| `Pipeline.Filtered` | src/pages/index.tsx:26-43 | the two filters together keep, in catalog order, exactly the catalog projects that pass both |
| `Pipeline.FilteredMultiset` | src/pages/index.tsx:26-43 | a project passing both filters occurs in the filtered list as often as in the catalog; any other project does not occur |
| `Pipeline.ByNameIsTotalPreorder` | src/pages/index.tsx:45-47 | the name comparator relates any two projects and is transitive, as `sort` requires |
| `Pipeline.ByName` | src/pages/index.tsx:45-47 | the comparator: a project sorts no later than another when its lower-cased name is no later in `LexLe`; `ByNameIsTotalPreorder` states it is a total preorder |
| `Pipeline.SortByName` | src/pages/index.tsx:45-47 | the sort step returns its input reordered (same multiset, same length) in non-decreasing order of lower-cased name |
| `Pipeline.SortByNameStable` | src/pages/index.tsx:45-47 | projects whose lower-cased names are equal keep their relative input order |
| `Pipeline.SortCaseInsensitiveExample` | src/pages/index.tsx:45-47 | "Bravo", "alpha", "Charlie" sort to "alpha", "Bravo", "Charlie" |
| `Sorting.InsertionSort` | src/pages/index.tsx:45-47 | sorting under a total preorder gives a sorted permutation of the input |
| `Sorting.InsertionSortStable` | src/pages/index.tsx:45-47 | sorting keeps the input order among elements the comparator cannot tell apart |
| `Sorting.InsertKeepsSorted` | src/pages/index.tsx:45-47 | inserting one element into a sorted sequence keeps it sorted |
| `Sorting.InsertInClass` | src/pages/index.tsx:45-47 | an inserted element goes in front of the elements it ties with, whose order is unchanged |
| `Sorting.InsertionSortThree` | src/pages/index.tsx:45-47 | a three-element input whose middle element sorts first comes out with that element first and the others in order |
| `NameOrder.Lower` | src/pages/index.tsx:46 | lower-casing keeps the length and maps each character on its own |
| `NameOrder.LexLe` | src/pages/index.tsx:46 | the order standing for `localeCompare(...) <= 0`: after a common prefix, the first name ends or has the smaller next character; `LexLeTotal`, `LexLeTransitive` and `LexLeFirst` state its properties |
| `NameOrder.LexLeTotal` | src/pages/index.tsx:46 | any two names compare one way or the other |
| `NameOrder.LexLeTransitive` | src/pages/index.tsx:46 | the name order is transitive |
| `NameOrder.LexLeFirst` | src/pages/index.tsx:46 | names with different first characters are ordered by those characters |
| `Seqs.Filter` | src/pages/index.tsx:28 | `filter` returns a subsequence of its input that holds exactly the accepted elements |
| `Seqs.Take` | src/pages/index.tsx:49 | `slice(0, n)` returns the prefix of length `min(n, length)` |
| `Seqs.TakePrefix` | src/pages/index.tsx:49 | a smaller count takes a prefix of what a larger count takes |
| `Seqs.TakeAll` | src/pages/index.tsx:49 | a count at or past the length takes the whole sequence |
| `Pipeline.TagsRef` | src/pages/index.tsx:55-57 | `tagsRef` is a subsequence of the tag catalog holding exactly the tags whose `value` the project lists |
| `Pipeline.Enrich` | src/pages/index.tsx:51-58 | an enriched item carries the same name, tags and liveness flags as its project |
| `Pipeline.EnrichResolvesTags` | src/pages/index.tsx:52-57 | an enriched item's `tagsRef` is exactly the catalog tags it lists, in catalog order |
| `Pipeline.EnrichAll` | src/pages/index.tsx:51-59 | `map` builds one item per project, position by position |
| `Pipeline.Sources` | src/pages/index.tsx:54 | each item gives back the project it was built from, position by position; `SourcesOfEnrichAll` states the round trip |
| `Pipeline.SourcesOfEnrichAll` | src/pages/index.tsx:51-59 | building the items and taking their projects back gives exactly the projects that went in |
| `Pipeline.VisibleLength` | src/pages/index.tsx:49 | the listing has `min(cursor, number of matching projects)` items |
| `Pipeline.VisibleProjects` | src/pages/index.tsx:25-59 | the listing derivation (tag stage, status stage, sort, slice, map); it never holds more than `cursor` items, and its other promises are stated by the `Visible*` lemmas |
| `Pipeline.VisibleSorted` | src/pages/index.tsx:45-49 | the listing is in non-decreasing order of lower-cased name |
| `Pipeline.VisibleItemsMatch` | src/pages/index.tsx:26-59 | every listed item comes from a catalog project that passes both filters and carries exactly its tag records |
| `Pipeline.VisibleIsSortedPrefix` | src/pages/index.tsx:45-49 | the listing's projects are the first items of the sorted, filtered catalog |
| `Pipeline.VisibleComplete` | src/pages/index.tsx:26-49 | once the cursor covers the filtered catalog, the listing's projects are a permutation of it |
| `Pipeline.VisibleCursorMonotone` | src/pages/index.tsx:49 | a larger cursor only appends items to the listing |
| `Pipeline.VisibleGrows` | src/pages/index.tsx:49 | raising the cursor extends the listing at its end, and changes nothing once every matching project is listed |
| `Pipeline.VisibleSaturates` | src/pages/index.tsx:49 | cursors at or past the number of matching projects give the same listing |
| `Pipeline.PagesOfTwentyFive` | src/pages/index.tsx:49 | with 25 matching projects, cursors 10, 20 and 30 list 10, 20 and 25 items, and cursor 40 lists what cursor 30 lists |
| `Pipeline.VisibleEmptyIff` | src/pages/index.tsx:156-181 | with a positive cursor the listing is empty if and only if no catalog project passes both filters |
| `HomePage.Home.constructor` | src/pages/index.tsx:17-23 | the page starts with no card flipped, the "all" tag, status ALL, cursor 10, and the listing derived from them |
| `HomePage.Home.Recompute` | src/pages/index.tsx:25-62 | the effect sets the listing to the derivation of the current filters and cursor; on a page whose listing is current it changes nothing (the handlers assign the same derivation inline) |
| `HomePage.Home.OnTagChange` | src/pages/index.tsx:121-127 | picking a tag selects it, resets the cursor to 10 and the flipped index to -1 whatever they were, keeps the status, and recomputes the listing |
| `HomePage.Home.OnStatusChange` | src/pages/index.tsx:137-147 | picking a status makes the same resets as a tag and keeps the tag |
| `HomePage.Home.OnEnter` | src/pages/index.tsx:64-71 | the viewport event raises the cursor by exactly 10; the old listing is a prefix of the new one, so the flipped card stays the same card; a complete listing stays unchanged |
| `HomePage.Home.OnCardClick` | src/pages/index.tsx:168-169 | a click sets the flipped index to the clicked card, which is then the one and only flipped card; the listing is not recomputed |
| `HomePage.Home.IsFlipped` | src/pages/index.tsx:168 | `isFlipped` of a card: its index is the flipped index; `OnCardClick` states that after a click it holds of the clicked card only |
| `HomePage.Home.ShowsPlaceholder` | src/pages/index.tsx:156-181 | the page shows the empty-state message if and only if no catalog project passes both filters |

## Left out

- `src/components/layout/TagMenu.tsx` is not part of this model. It is a controlled widget whose only logic is "a click sets the selection and calls `onChange`". The model represents it by the tag a `HomePage.Home.OnTagChange` call receives.
- All JSX rendering, layout props and the translated texts (src/pages/index.tsx:73-185) are left out; only the choice between list and placeholder is kept, as `ShowsPlaceholder`.
- `useInView`, the IntersectionObserver and `unobserve()` are browser facilities. Only their effect is modelled: `OnEnter` raises the cursor. The model does not restrict `OnEnter` to the moment the last card becomes visible.
- React's effect scheduling and the batching of state updates are left out. Each handler that changes a filter or the cursor sets its fields and then runs the listing derivation synchronously; a card click changes only the flipped index and derives nothing.
- `Pipeline.SortByName`: `localeCompare` and `toLowerCase` are Unicode- and locale-aware. The model lower-cases ASCII letters only and compares code points lexicographically. Names whose order differs under a locale collation are not modelled.
- `NameOrder.Lower`: lower-cases ASCII letters only and keeps every other character, so it keeps the length. JavaScript's `toLowerCase` applies the full Unicode case mapping, which can also change a string's length ("İ" becomes two code units); the model does not cover those names.
- The sentinel test `tagsFilter === tagAll` is a reference comparison in the source. The model compares the tag records by value. The two agree as long as no other catalog tag has the same value and label as `allTags[0]`.
- `HomePage.Home.OnStatusChange` models the status menu, which is commented out in the source (lines 137-147). At runtime the status stays ALL. `getStatus` and `allStatusTags` from `data/status-tag` are not part of this model; the handler receives a `Status` directly.
- The catalogs `allProjects` and `allTags` and the translation provider are external static data. They are parameters of the constructor. The constructor requires a non-empty tag catalog, because its first entry is the "all" sentinel. The source reads `allTags[0]` without a check, and with an empty tag catalog it would compare `undefined` with `undefined` and keep every project; the model does not cover that case. Project fields other than name, tags and the liveness flags take no part in the listing and are not modelled.
- `HomePage.Home.OnCardClick` requires the index to be that of a rendered card. This holds in the source, where the index comes from mapping over the listing.
