# rss: the feed reader's text rewriter and its two stores, in Dafny

This project models the core of the `rss` feed reader. It covers three parts.

- **The tag-pair rewriter of the parser** (`parser.dfy`, module `Parser`).
  - `ProcessElementText` walks a string with a cursor. At each start tag it copies the text up to and including the tag. It then appends `f` applied to the bytes up to the next end tag, and then that end tag.
  - An unmatched start tag empties the result. `Quote` is the rewriter with `strconv.Quote` as `f`.
  - The method keeps the Go cursor loop. It is proved equal to a recursive specification `Rewrite`. That specification is proved equal to a second, independent one: the input cut into text and element segments (`Split`) and written back out (`Render`).
  - Text is a sequence of bytes, as Go's `strings.Index` sees it.
- **The SQL store** (`repository.dfy`, module `Repository`).
  - The database is two tables, `feeds` and `items`, each a map from row id to row. Each table has an id sequence.
  - Every SQL statement the repository sends is a function on that state:
    - the feed upsert keyed on `link`;
    - the item upsert keyed on `(feed_id, link)`;
    - the one-column flag updates;
    - the `SELECT` of one item;
    - the listing ordered by publication date.
  - The class `SqlRepository` holds the tables and applies the statements in the order the Go code sends them. Its `CreateFeed` runs them in one transaction, with database failures passed in as a `Fault`.
  - The schema's constraints (one feed per link, one item per feed and link, ids drawn from the sequences) form the class invariant.
- **The in-memory store** (`mock.dfy`, module `Mock`).
  - The class `Repository` has one `lastID` counter and two maps, updated in place as the Go methods do.
  - `CreateFeed` stamps the caller's item array in place.
  - `RemoveFeed` and `ListItems` range over the item map.

`domain.dfy` (module `Domain`) holds the feed and item records, the flags and the error, option and result wrappers both stores use.

## Model

| member | source | states |
|---|---|---|
| Parser.Ascii | parser/rss.go:20-21 | the tag constants are the byte strings of their ASCII text: one byte per character, equal to its code |
| Parser.ContentEncodedTags | parser/rss.go:20-21 | both `content:encoded` tags are non-empty, so the rewriter accepts them, and the end tag is the start tag with `/` after `<` |
| Parser.IndexOf | parser/rss.go:93 | `strings.Index`: -1, or an offset at which the pattern fits inside the string |
| Parser.IndexOfIsFirst | parser/rss.go:93 | `strings.Index` is the first occurrence; -1 exactly when there is none; 0 for an empty pattern |
| Parser.IndexFromFinds | parser/rss.go:93 | the search from a cursor finds the first occurrence at or after it, and -1 means none |
| Parser.IndexOfSuffix | parser/rss.go:93-100 | searching `input[currentIndex:]` and adding `currentIndex` is searching the whole input from the cursor |
| Parser.MatchIsOccurrence | parser/rss.go:93 | the byte-by-byte comparison holds exactly at the occurrences of the pattern |
| Parser.ProcessElementText | parser/rss.go:87-127 | the cursor loop returns `Rewrite(input, startTag, endTag, f)`; the cursor stays within the input and moves past a tag pair every round |
| Parser.Quote | parser/rss.go:81-83 | `Quote` is the rewriter with `strconv.Quote` as its transform |
| Parser.RewriteLast | parser/rss.go:94-98 | with no start tag left, the rest of the input is appended and returned |
| Parser.RewriteUnmatched | parser/rss.go:109-113 | a start tag with no end tag after it makes the result empty, whatever was already written |
| Parser.RewritePair | parser/rss.go:100-123 | a round over a pair appends the text and start tag, `f` of the interior and the end tag, and resumes just past the end tag, strictly later |
| Parser.RewriteFrom | parser/rss.go:91-126 | from a cursor, the output written so far is only ever extended, or the whole result is empty |
| Parser.Rewrite | parser/rss.go:87-127 | the rewrite equals the input cut into text and element segments, written back with every text as it is and every interior replaced by `f` of it between its own tags, or empty when malformed |
| Parser.RewriteFromIsRenderedScan | parser/rss.go:91-126 | from every cursor, the loop's output and the rendered segments agree |
| Parser.ScanPrepend | parser/rss.go:91-126 | the segments before the cursor are a prefix of the result and do not change whether the rest is well formed |
| Parser.NoStartTagIsIdentity | parser/rss.go:93-98 | input without a start tag is one text segment and comes back unchanged |
| Parser.UnmatchedStartTagFails | parser/rss.go:109-113 | a first start tag with no end tag after it gives no segments and an empty result |
| Parser.EmptyStartTagFails | parser/rss.go:93-113 | an empty start tag matches at every cursor, so the scan runs out of end tags |
| Parser.EmptyStartTagEmptiesOutput | parser/rss.go:93-113 | an empty start tag empties every result |
| Parser.ScanSucceedsIffWellFormed | parser/rss.go:109-113 | the scan succeeds exactly when no start tag in the rest lacks an end tag after it |
| Parser.MalformedRestEmptiesOutput | parser/rss.go:109-113 | once the rest is malformed the result is empty, however many pairs were written before |
| Parser.RewriteFromIdentity | parser/rss.go:96-123 | with the identity as transform, the tags and the bytes between them tile the well-formed rest without gaps or overlaps |
| Parser.IdentityRoundTrip | parser/rss.go:96-123 | round trip: with the identity as transform, well-formed input comes back unchanged |
| Parser.ScanSegmentsAreMaximal | parser/rss.go:93-123 | every interior ends at the first end tag after its start tag, and every text before an element ends at the first start tag after the cursor; an occurrence that overlaps the tag closing the segment counts, so self-overlapping tags are cut where `strings.Index` cuts them; the last text holds no start tag |
| Parser.SegmentsAreMaximal | parser/rss.go:93-123 | every segment of a well-formed input is maximal in that sense: no tag starts inside a segment before the tag that ends it |
| Parser.RenderConcat | parser/rss.go:106-120 | writing out segments distributes over concatenation, so `f` is applied once per pair, left to right |
| Parser.WellFormedPair | parser/rss.go:100-123 | a matched pair does not change whether the input is well formed from the cursor on |
| Repository.FeedWithLink | repository/repository.go:113 | the conflict target `link`: finds the one feed row holding the link, or reports that none does |
| Repository.ItemWithKey | repository/repository.go:103 | the conflict target `(feed_id, link)`: finds the one item row with that key, or reports that none has it |
| Repository.UpsertFeed | repository/repository.go:113-114 | a stored link keeps its row id and gets the new title, description and icon; a new link gets a row under the sequence's next value; every other row is unchanged and the sequence value is drawn either way |
| Repository.UpsertItem | repository/repository.go:102-105 | a stored `(feed_id, link)` keeps its row id and flags and gets the new title and date; a new key gets a row with every flag false; every other row is unchanged |
| Repository.UpsertFeedIsConsistent | repository/repository.go:113 | a feed upsert keeps one row per link and ids drawn from the sequence |
| Repository.UpsertItemIsConsistent | repository/repository.go:103 | an item upsert keeps one row per `(feed_id, link)` and ids drawn from the sequence |
| Repository.ReingestedFeedKeepsItsRow | repository/repository.go:113-114 | upserting a feed whose link is stored adds no row, returns the same id and rewrites only the row's title, description and icon |
| Repository.ReingestedItemKeepsItsFlags | repository/repository.go:103 | upserting an item whose feed and link are stored adds no row, returns the same id and keeps the read, ignored and starred flags |
| Repository.Update | repository/repository.go:48-87 | `UPDATE items SET <flag>`: only that flag of the row with that id changes; a missing id changes nothing |
| Repository.WithRowFlag | repository/repository.go:48-79 | one flag column takes the new value and the other columns keep theirs |
| Repository.UpdateLastWins | repository/repository.go:54-59 | setting a flag twice equals setting it once with the later value: `ReadItem` twice leaves it read; `UnreadItem` after `ReadItem` leaves it unread |
| Repository.UpdatesCommute | repository/repository.go:48-87 | updates of different flag columns commute |
| Repository.UpdateIsConsistent | repository/repository.go:48-87 | a flag update keeps every constraint and every row id |
| Repository.ItemOf | repository/repository.go:37 | a scanned row becomes an item with the id asked for and each column in its own field: feed id, title, link, date and each of the three flags |
| Repository.SelectItem | repository/repository.go:93-100 | a missing id is an error; a stored row comes back with every selected column and id 0, because the id column is not selected |
| Repository.Ascending | repository/repository.go:37 | the row ids in increasing order, each once |
| Repository.Rows | repository/repository.go:37 | every row of the table, read back as an item with its own id, in increasing id order |
| Repository.RowsHoldEveryRow | repository/repository.go:37 | every stored row is among the rows read |
| Repository.InsertByDate | repository/repository.go:37 | inserting into a newest-first list keeps it newest first and adds exactly that item |
| Repository.OrderByDateDesc | repository/repository.go:37 | `ORDER BY publication_date DESC` gives a newest-first permutation of the rows |
| Repository.Listing | repository/repository.go:36-45 | `ListItems(limit)` as written: a query error exactly when `limit` is not `AllItems`; otherwise the rows newest first, a permutation of the table |
| Repository.ListingIsEveryRowNewestFirst | repository/repository.go:36-45 | `ListItems(AllItems)` returns every row exactly once, newest first; every other limit is an error |
| Repository.DistinctCount | repository/repository.go:37 | rows with increasing ids hold each item at most once |
| Repository.UpsertItems | repository/repository.go:119-125 | the item loop: each item gets the feed's id and then its row's id; the constraints hold and the item sequence advances once per item |
| Repository.UpsertItemsStoresTitle | repository/repository.go:102-105 | the row of a batch item holds the feed's id and the item's link, and its title and date when no later item has that link, since the conflict update rewrites title and date |
| Repository.UpsertItemsNewRowsUnflagged | repository/repository.go:102-105 | a row the item loop inserts starts with every flag false, and later conflict updates keep them false |
| Repository.UpsertItemsStoresTitles | repository/repository.go:119-125 | for every item of the batch: its row exists, holds its title and date when it is the last with its link, and has every flag false when the batch created it |
| Repository.UpsertItemsStoresEveryItem | repository/repository.go:119-125 | every item passed to `CreateFeed` is stored under the id written into it, with the feed's id and its link |
| Repository.CreateFeedEffect | repository/repository.go:107-133 | the committed transaction: the constraints hold; the feed gets the id of the row holding its link, with its title, description and icon; each item gets that feed id and the id of the row that now holds it with the feed's id and its link, in order; that row holds the item's title and publication date unless a later item of the batch has the same link; a row the batch created has read, ignored and starred false; each sequence advances once per statement |
| Repository.UpsertItemsKeepsStoredRows | repository/repository.go:102-105 | across the item loop every stored row keeps its id, feed id, link and read, ignored and starred flags, since the conflict update sets only title and date |
| Repository.UpsertItemsLeavesOtherRows | repository/repository.go:102-105 | a stored row whose `(feed_id, link)` no item of the batch has is left exactly as it was |
| Repository.CreateFeedKeepsStoredItems | repository/repository.go:107-133 | re-ingesting a feed through `CreateFeed` keeps every stored item row with its id, key and flags, and leaves rows outside the batch unchanged |
| Repository.EffectOfCreateFeed | repository/repository.go:113-125 | the successful transaction is the feed upsert followed by the item upserts under the feed's id |
| Repository.RollbackIsConsistent | repository/repository.go:114-130 | after a rollback the tables are as before the transaction, and the constraints hold with the sequences where they are |
| Repository.SqlRepository.constructor | repository/repository.go:28-30 | a repository over a database in any consistent state |
| Repository.SqlRepository.ListItems | repository/repository.go:36-46 | returns the listing: every row newest first for `AllItems`, an error for every other limit; changes nothing |
| Repository.SqlRepository.SetItemFlag | repository/repository.go:48-79 | the state becomes `Update` of the old state; never an error |
| Repository.SqlRepository.ReadItem | repository/repository.go:54-56 | sets `read` to true by `Update` |
| Repository.SqlRepository.UnreadItem | repository/repository.go:58-60 | sets `read` to false by `Update` |
| Repository.SqlRepository.IgnoreItem | repository/repository.go:68-70 | sets `ignored` to true by `Update` |
| Repository.SqlRepository.UnignoreItem | repository/repository.go:72-74 | sets `ignored` to false by `Update` |
| Repository.SqlRepository.StarItem | repository/repository.go:81-83 | sets `starred` to true by `Update` |
| Repository.SqlRepository.UnstarItem | repository/repository.go:85-87 | sets `starred` to false by `Update` |
| Repository.SqlRepository.GetItem | repository/repository.go:93-100 | returns `SelectItem` of the state: the row with id 0, or an error for a missing id |
| Repository.SqlRepository.CreateItem | repository/repository.go:135-137 | the state becomes `UpsertItem` of the old state and the item gets its row's id |
| Repository.SqlRepository.WriteFeed | repository/repository.go:113-117 | the feed upsert inside the transaction, under the constraints |
| Repository.SqlRepository.WriteItems | repository/repository.go:119-125 | the item loop inside the transaction, stopped at the refused write; items before it carry their ids, the refused one only its feed id, later ones are untouched |
| Repository.SqlRepository.Rollback | repository/repository.go:114-130 | both tables return to their state before the transaction; the sequences keep what was drawn |
| Repository.SqlRepository.CreateFeed | repository/repository.go:107-133 | with no fault the state, feed and items are `CreateFeedEffect`; any failure returns an error with both tables unchanged; a refused `Begin` or feed write leaves the items and sequences untouched; a refused `k`-th item write leaves items before `k` stamped as the committed run would, item `k` with only its feed id and later items untouched, with one feed and `k` item sequence values drawn; a refused commit leaves the items stamped and every sequence value drawn |
| Repository.SelectItemWithId | repository/repository.go:93-100 | `GetItem` with `id` selected: the stored row under the id asked for |
| Repository.CreatedItemReadsBack | repository/repository.go:93-105 | an item just created reads back, with `id` selected, as that item under its row's id with its row's flags |
| Repository.CreatedItemLosesItsId | repository/repository.go:93-105 | as written, an item just created reads back with id 0, which is no row's id |
| Repository.ListingWithLimit | repository/repository.go:36-46 | the listing with a space before `LIMIT`: an error exactly for a negative limit |
| Repository.ListingWithLimitIsNewestPrefix | repository/repository.go:36-46 | with the space, a limit gives the newest `limit` rows, a newest-first prefix of the full listing; `AllItems` gives every row |
| Repository.ListingRefusesEveryLimit | repository/repository.go:38-39 | as written, every positive limit is refused where the listing with the space returns rows |
| Domain.WithFlag | mock/repository.go:60-106 | one flag takes the new value and the rest of the item is kept |
| Mock.Written | mock/repository.go:60-106 | as written: each method works on its own flag, and every method but `UnreadItem` writes true |
| Mock.Flagged | mock/repository.go:60-106 | a missing id is a "not found" error; otherwise only that item's one flag changes |
| Mock.FlaggedIsIdempotent | mock/repository.go:60-106 | repeating a flag method changes nothing more |
| Mock.Intended | mock/repository.go:84-106 | every `Un` method writes false and every other one writes true |
| Mock.Undo | mock/repository.go:60-106 | the `Un` partner of a setting method: a different method, on the same flag, meant to write false |
| Mock.WrittenUndoKeepsFlag | mock/repository.go:76-106 | as written, `UnignoreItem` after `IgnoreItem` leaves the item ignored and `UnstarItem` after `StarItem` leaves it starred |
| Mock.IntendedUndoRestores | mock/repository.go:60-106 | with the intended values, an `Un` method clears its flag and restores an item whose flag was clear |
| Mock.WrittenDiffersOnlyInUndo | mock/repository.go:84-106 | the methods as written and as intended differ exactly at `UnignoreItem` and `UnstarItem` |
| Mock.WithoutFeed | mock/repository.go:36-43 | the items kept are exactly those of other feeds, unchanged |
| Mock.WithoutFeedIdempotentAndCommutes | mock/repository.go:36-43 | removing a feed twice is removing it once; removals of two feeds commute |
| Mock.Stamped | mock/repository.go:27-31 | the batch after `CreateFeed`: item `j` carries the feed's id and the id `feed + 1 + j` |
| Mock.Added | mock/repository.go:45-50 | storing created items in order keeps every key already stored |
| Mock.AddedKeepsOthers | mock/repository.go:45-50 | storing created items keeps the record of every stored item whose id none of them reuses, and stores each created item under its id |
| Mock.AddedStamped | mock/repository.go:23-34 | the batch lands under the ids just after the feed's; every item stored before is kept; nothing else is added |
| Mock.Repository.constructor | mock/repository.go:10-15 | an empty store with the counter at 0 |
| Mock.Repository.CreateItem | mock/repository.go:45-50 | the counter rises by one and the item is stored under it as a new key, even when its feed and link are stored already; never an error |
| Mock.Repository.CreateFeed | mock/repository.go:23-34 | the feed is stored under the next id; the batch becomes `Stamped` and is stored item by item under the following ids; no other item changes; never an error |
| Mock.Repository.CreateItems | mock/repository.go:27-32 | the loop of `CreateFeed`: the array becomes `Stamped` in place and the table `Added` of it |
| Mock.Repository.RemoveFeed | mock/repository.go:36-43 | the items become `WithoutFeed` of the old items; the feeds and the counter do not change; never an error |
| Mock.Repository.GetItem | mock/repository.go:52-58 | the stored item under that id, or "not found"; changes nothing |
| Mock.Repository.SetFlag | mock/repository.go:60-106 | the items become `Flagged` of the old items, or stay as they are with "not found" |
| Mock.Repository.ReadItem | mock/repository.go:60-66 | sets `read` to true, or "not found" |
| Mock.Repository.UnreadItem | mock/repository.go:68-74 | sets `read` to false, or "not found" |
| Mock.Repository.IgnoreItem | mock/repository.go:76-82 | sets `ignored` to true, or "not found" |
| Mock.Repository.UnignoreItem | mock/repository.go:84-90 | as written, sets `ignored` to true, or "not found" |
| Mock.Repository.StarItem | mock/repository.go:92-98 | sets `starred` to true, or "not found" |
| Mock.Repository.UnstarItem | mock/repository.go:100-106 | as written, sets `starred` to true, or "not found" |
| Mock.Repository.ListItems | mock/repository.go:108-117 | lists distinct stored items, each as stored: all of them when `limit` is at least their number, exactly `limit` otherwise (none for 0) |

## Left out

- Loading and decoding feeds (`Load`, `LoadFile`, `LoadURL`): XML decoding, HTTP and files are foreign libraries and I/O.
- `strconv.Quote`: it is passed to `Quote` as a function parameter, and its escaping is not modelled.
- Parser.ProcessElementText: requires that the start tag or the end tag is non-empty. With both empty the Go loop never ends, so there is no result to model.
- The normaliser from parsed feeds to stored records, and the HTTP transport: neither is part of this model.
- The SQL driver, connections and concurrent sessions. Each statement is modelled by its sequential effect on the two tables.
- The foreign key from `items.feed_id` to `feeds.id` is not modelled. The schema is not part of this model.
- Column defaults: a new item row has every flag false, taken as the schema's default.
- Repository.SqlRepository.CreateFeed: database failures are modelled only inside `CreateFeed`, as a `Fault` parameter.
- Repository.SqlRepository.SetItemFlag, Repository.SqlRepository.CreateItem, Repository.SqlRepository.GetItem, Repository.SqlRepository.ListItems: no driver or connection error is modelled, so these return only the errors their statements' results give (none for the first two).
- Repository.SqlRepository.CreateFeed: a refused feed or item write draws no sequence value. The database may or may not have drawn one before refusing the row.
- The SQL store has no `RemoveFeed`: the Go interface does not declare one.
- Repository.SqlRepository.ListItems: models the query text as written. Every limit other than `AllItems` is a query error, so no `LIMIT` semantics is modelled there.
- Repository.OrderByDateDesc: items with equal dates are placed in one particular order. The database may return them in any order.
- Publication dates are integers. Time zones and rounding play no part in the code.
- Mock.Repository.ListItems: requires a non-negative limit, because a negative one makes the Go slice expression panic. The order of the list is left open, as Go's map iteration order is unspecified.
- Pointers in the mock: stored records are values. A caller that keeps a pointer it passed in or got back does not see later changes, and changes through such a pointer are not modelled.
- Mock.Repository.Valid: the invariant that every key equals its stored item's id holds only when each call passes fresh pointers. In Go, `CreateItem` twice with one pointer, or one pointer repeated in a batch, leaves two keys on one struct whose id is the later key.
- Mock.Repository.CreateItem: the `int64` counter is unbounded here. Wrap-around after 2^63 - 1 ids is not modelled.
- Mock.Repository.RemoveFeed: deleting during a range over a Go map is modelled as a loop over the set of keys not yet visited.

## Findings

| source | as written | input that shows it | evidently intended | confidence | as-written member | corrected member |
|---|---|---|---|---|---|---|
| mock/repository.go:84-106 | `UnignoreItem` sets `Ignored = true` and `UnstarItem` sets `Starred = true` | `IgnoreItem(1)` then `UnignoreItem(1)` leaves item 1 ignored | the `Un` methods write false, as the SQL store does | high; not executed | Mock.WrittenUndoKeepsFlag | Mock.IntendedUndoRestores |
| repository/repository.go:39 | `"LIMIT %d"` is appended with no space after `DESC` | `ListItems(5)` sends `... DESCLIMIT 5`, which the database refuses | `" LIMIT %d"`: the newest `limit` items | high; not executed | Repository.ListingRefusesEveryLimit | Repository.ListingWithLimitIsNewestPrefix |
| repository/repository.go:94 | `GetItem` does not select the `id` column | `GetItem(7)` on a stored row 7 returns an item with id 0 | select `id` as `ListItems` does, so the item comes back with its id | medium; not executed | Repository.CreatedItemLosesItsId | Repository.CreatedItemReadsBack |
