/** The SQL store of repository/repository.go. The database is modelled by
    its two tables, `feeds` and `items`, each a map from row id to row, and
    by the next value of each table's id sequence. Every SQL statement the
    repository sends is a function on that state; the repository's methods
    apply them in the order the Go code sends them. */
module Repository {
  import opened Domain

  /** The `limit` of `ListItems` that asks for every item. */
  const AllItems: int := 0

  /** A row of `feeds`; the row's id is its key in the table. */
  datatype FeedRow = FeedRow(title: string, description: string, link: string, icon: string)

  /** A row of `items`; the row's id is its key in the table. */
  datatype ItemRow = ItemRow(
    feedId: int,
    title: string,
    link: string,
    publicationDate: int,
    read: bool,
    ignored: bool,
    starred: bool)

  /** Both tables and the next value each id sequence hands out. */
  datatype Db = Db(feeds: map<int, FeedRow>, items: map<int, ItemRow>, nextFeedId: int, nextItemId: int)

  /** Faults of the database or its driver during `CreateFeed`. */
  datatype Fault =
    | NoFault
    | BeginFails            // the transaction cannot be opened
    | FeedWriteFails        // the feed upsert is refused
    | ItemWriteFails(k: nat) // the upsert of the `k`-th item is refused
    | CommitFails           // the commit is refused

  /** The link of the feed row `id`. */
  function LinkOf(feeds: map<int, FeedRow>, id: int): string
    requires id in feeds
  {
    feeds[id].link
  }

  /** The key `(feed_id, link)` of the item row `id`. */
  function KeyOf(items: map<int, ItemRow>, id: int): (int, string)
    requires id in items
  {
    (items[id].feedId, items[id].link)
  }

  /** The `UNIQUE (link)` constraint of `feeds`. */
  ghost predicate UniqueLinks(feeds: map<int, FeedRow>)
  {
    forall a, b {:trigger LinkOf(feeds, a), LinkOf(feeds, b)} ::
      a in feeds && b in feeds && LinkOf(feeds, a) == LinkOf(feeds, b) ==> a == b
  }

  /** The `UNIQUE (feed_id, link)` constraint of `items`. */
  ghost predicate UniqueKeys(items: map<int, ItemRow>)
  {
    forall a, b {:trigger KeyOf(items, a), KeyOf(items, b)} ::
      a in items && b in items && KeyOf(items, a) == KeyOf(items, b) ==> a == b
  }

  /** The constraints the schema keeps, and ids that came from the
      sequences: every id is positive and below the sequence's next value. */
  ghost predicate Consistent(db: Db)
  {
    && UniqueLinks(db.feeds)
    && UniqueKeys(db.items)
    && 1 <= db.nextFeedId
    && 1 <= db.nextItemId
    && (forall id :: id in db.feeds ==> 1 <= id < db.nextFeedId)
    && (forall id :: id in db.items ==> 1 <= id < db.nextItemId)
  }

  // ---------------------------------------------------------------------
  // The statements
  // ---------------------------------------------------------------------

  /** The id of the feed row holding `link`, if there is one. */
  function FeedWithLink(feeds: map<int, FeedRow>, link: string): (r: Option<int>)
    requires UniqueLinks(feeds)
    ensures r.Some? ==> r.value in feeds && feeds[r.value].link == link
    ensures r.None? ==> forall id :: id in feeds ==> feeds[id].link != link
  {
    if exists id :: id in feeds && LinkOf(feeds, id) == link then
      var id :| id in feeds && LinkOf(feeds, id) == link;
      Some(id)
    else
      None
  }

  /** The id of the item row keyed by `(feedId, link)`, if there is one. */
  function ItemWithKey(items: map<int, ItemRow>, feedId: int, link: string): (r: Option<int>)
    requires UniqueKeys(items)
    ensures r.Some? ==> r.value in items && items[r.value].feedId == feedId && items[r.value].link == link
    ensures r.None? ==> forall id :: id in items ==> items[id].feedId != feedId || items[id].link != link
  {
    if exists id :: id in items && KeyOf(items, id) == (feedId, link) then
      var id :| id in items && KeyOf(items, id) == (feedId, link);
      Some(id)
    else
      None
  }

  /** `INSERT INTO feeds ... ON CONFLICT (link) DO UPDATE SET description,
      title, icon RETURNING id`: the row with the feed's link gets the new
      title, description and icon and keeps its id; without one, a row is
      inserted under the sequence's next value. The sequence value is drawn
      either way. Returns the new state and the row's id. */
  function UpsertFeed(db: Db, feed: Feed): (r: (Db, int))
    requires Consistent(db)
    ensures r.1 in r.0.feeds && r.0.feeds[r.1] == FeedRow(feed.title, feed.description, feed.link, feed.image)
    ensures r.0.feeds.Keys == db.feeds.Keys + {r.1}
    ensures forall id :: id in db.feeds && id != r.1 ==> r.0.feeds[id] == db.feeds[id]
    ensures (exists id :: id in db.feeds && db.feeds[id].link == feed.link) <==> r.1 in db.feeds
    ensures r.1 in db.feeds ==> db.feeds[r.1].link == feed.link
    ensures r.1 !in db.feeds ==> r.1 == db.nextFeedId
    ensures r.0.items == db.items && r.0.nextItemId == db.nextItemId && r.0.nextFeedId == db.nextFeedId + 1
  {
    var drawn := db.(nextFeedId := db.nextFeedId + 1);
    match FeedWithLink(db.feeds, feed.link)
    case Some(id) =>
      var row := db.feeds[id].(description := feed.description, title := feed.title, icon := feed.image);
      (drawn.(feeds := db.feeds[id := row]), id)
    case None =>
      var row := FeedRow(feed.title, feed.description, feed.link, feed.image);
      (drawn.(feeds := db.feeds[db.nextFeedId := row]), db.nextFeedId)
  }

  /** `INSERT INTO items (feed_id, title, link, publication_date) ... ON
      CONFLICT (feed_id, link) DO UPDATE SET title, publication_date
      RETURNING id`: the row keyed by the item's feed and link gets the new
      title and date and keeps its id and flags; without one, a row is
      inserted under the sequence's next value with every flag at its
      column default, false. The flags of `item` are never written. */
  function UpsertItem(db: Db, item: Item): (r: (Db, int))
    requires Consistent(db)
    ensures r.1 in r.0.items
    ensures var row := r.0.items[r.1];
      row.feedId == item.feedId && row.link == item.link
      && row.title == item.title && row.publicationDate == item.publicationDate
    ensures r.0.items.Keys == db.items.Keys + {r.1}
    ensures forall id :: id in db.items && id != r.1 ==> r.0.items[id] == db.items[id]
    ensures (exists id :: id in db.items && db.items[id].feedId == item.feedId && db.items[id].link == item.link)
            <==> r.1 in db.items
    ensures r.1 in db.items ==> db.items[r.1].feedId == item.feedId && db.items[r.1].link == item.link
    ensures r.1 in db.items ==>
      var (old_, new_) := (db.items[r.1], r.0.items[r.1]);
      new_.read == old_.read && new_.ignored == old_.ignored && new_.starred == old_.starred
    ensures r.1 !in db.items ==>
      r.1 == db.nextItemId && !r.0.items[r.1].read && !r.0.items[r.1].ignored && !r.0.items[r.1].starred
    ensures r.0.feeds == db.feeds && r.0.nextFeedId == db.nextFeedId && r.0.nextItemId == db.nextItemId + 1
  {
    var drawn := db.(nextItemId := db.nextItemId + 1);
    match ItemWithKey(db.items, item.feedId, item.link)
    case Some(id) =>
      var row := db.items[id].(title := item.title, publicationDate := item.publicationDate);
      (drawn.(items := db.items[id := row]), id)
    case None =>
      var row := ItemRow(item.feedId, item.title, item.link, item.publicationDate, false, false, false);
      (drawn.(items := db.items[db.nextItemId := row]), db.nextItemId)
  }

  /** `UPDATE items SET <flag> = status WHERE id = $1`: the one flag of the
      row with that id is set; with no such row nothing changes. */
  function Update(db: Db, id: int, flag: Flag, status: bool): (r: Db)
    ensures r.feeds == db.feeds && r.nextFeedId == db.nextFeedId && r.nextItemId == db.nextItemId
    ensures r.items.Keys == db.items.Keys
    ensures forall k :: k in db.items && k != id ==> r.items[k] == db.items[k]
    ensures id in db.items ==> r.items[id] == WithRowFlag(db.items[id], flag, status)
    ensures id !in db.items ==> r == db
  {
    if id in db.items then db.(items := db.items[id := WithRowFlag(db.items[id], flag, status)]) else db
  }

  function WithRowFlag(row: ItemRow, flag: Flag, status: bool): (r: ItemRow)
    ensures RowFlag(r, flag) == status
    ensures forall other :: other != flag ==> RowFlag(r, other) == RowFlag(row, other)
    ensures r.(read := row.read, ignored := row.ignored, starred := row.starred) == row
  {
    match flag
    case ReadFlag => row.(read := status)
    case IgnoredFlag => row.(ignored := status)
    case StarredFlag => row.(starred := status)
  }

  function RowFlag(row: ItemRow, flag: Flag): bool
  {
    match flag
    case ReadFlag => row.read
    case IgnoredFlag => row.ignored
    case StarredFlag => row.starred
  }

  /** An item row read back as an item with id `id`. */
  function ItemOf(id: int, row: ItemRow): (r: Item)
    ensures r.id == id && r.feedId == row.feedId && r.link == row.link
    ensures r.title == row.title && r.publicationDate == row.publicationDate
    ensures forall flag :: FlagOf(r, flag) == RowFlag(row, flag)
  {
    Item(id, row.feedId, row.title, row.link, row.publicationDate, row.read, row.starred, row.ignored)
  }

  /** `SELECT feed_id, title, link, publication_date, read, ignored,
      starred FROM items WHERE id = $1`: no row is an error; the id column
      is not selected, so the item comes back with id 0. */
  function SelectItem(db: Db, id: int): (r: Result<Item>)
    ensures r.Err? <==> id !in db.items
    ensures r.Err? ==> r.error == NotFound
    ensures r.Ok? ==> r.value.id == 0 && r.value.(id := id) == ItemOf(id, db.items[id])
  {
    if id in db.items then Ok(ItemOf(0, db.items[id])) else Err(NotFound)
  }

  /** `GetItem` with the id column selected as well, as `ListItems` does:
      the item comes back under the id it was asked for. */
  function SelectItemWithId(db: Db, id: int): (r: Result<Item>)
    ensures r.Err? <==> id !in db.items
    ensures r.Err? ==> r.error == NotFound
    ensures r.Ok? ==> r.value.id == id && r.value == ItemOf(id, db.items[id])
  {
    if id in db.items then Ok(ItemOf(id, db.items[id])) else Err(NotFound)
  }

  /** An item just created reads back, with the id selected, as the item
      with its row's id, its feed, title, link and date, and the flags its
      row has. */
  lemma CreatedItemReadsBack(db: Db, item: Item, after: Db, id: int)
    requires Consistent(db) && (after, id) == UpsertItem(db, item)
    ensures SelectItemWithId(after, id).Ok?
    ensures SelectItemWithId(after, id).value == item.(id := id, read := after.items[id].read,
      ignored := after.items[id].ignored, starred := after.items[id].starred)
  {
  }

  /** As written, the item just created reads back with id 0, which is no
      row's id. */
  lemma CreatedItemLosesItsId(db: Db, item: Item, after: Db, id: int)
    requires Consistent(db) && (after, id) == UpsertItem(db, item)
    ensures SelectItem(after, id).Ok? && SelectItem(after, id).value.id != id
    ensures SelectItem(after, id).value.id !in after.items
  {
    UpsertItemIsConsistent(db, item);
  }

  // ---------------------------------------------------------------------
  // Listing: ORDER BY publication_date DESC
  // ---------------------------------------------------------------------

  /** A set of ids holding `some` has a least element. */
  lemma {:induction false} LeastBelow(keys: set<int>, some: int)
    requires some in keys
    ensures exists k :: k in keys && forall j :: j in keys ==> k <= j
    decreases |keys|
  {
    if !forall j :: j in keys ==> some <= j {
      var smaller :| smaller in keys && smaller < some;
      var rest := keys - {some};
      assert smaller in rest;
      LeastBelow(rest, smaller);
      var m :| m in rest && forall j :: j in rest ==> m <= j;
      LeastOfRest(keys, some, rest, m);
    }
  }

  lemma LeastOfRest(keys: set<int>, some: int, rest: set<int>, m: int)
    requires some in keys && rest == keys - {some}
    requires m in rest && m <= some
    requires forall j :: j in rest ==> m <= j
    ensures m in keys && forall j :: j in keys ==> m <= j
  {
    forall j | j in keys ensures m <= j {
      if j != some {
        assert j in rest;
      }
    }
  }

  lemma LeastKeyExists(keys: set<int>)
    requires keys != {}
    ensures exists k :: k in keys && forall j :: j in keys ==> k <= j
  {
    if forall j :: j !in keys {
      assert false;
    }
    var some :| some in keys;
    LeastBelow(keys, some);
  }

  /** The least of a non-empty set of ids. */
  function LeastKey(keys: set<int>): (k: int)
    requires keys != {}
    ensures k in keys && forall j :: j in keys ==> k <= j
  {
    LeastKeyExists(keys);
    var k :| k in keys && forall j :: j in keys ==> k <= j;
    k
  }

  /** The ids of `keys` in increasing order. */
  function Ascending(keys: set<int>): (r: seq<int>)
    ensures |r| == |keys|
    ensures forall k :: k in r <==> k in keys
    ensures forall a, b :: 0 <= a < b < |r| ==> r[a] < r[b]
    decreases |keys|
  {
    if keys == {} then
      []
    else
      var least := LeastKey(keys);
      var rest := Ascending(keys - {least});
      PrependLeast(keys, least, rest);
      [least] + rest
  }

  /** The least id in front of the others in increasing order gives all of
      them in increasing order. */
  lemma PrependLeast(keys: set<int>, least: int, rest: seq<int>)
    requires least in keys && forall j :: j in keys ==> least <= j
    requires |rest| == |keys - {least}|
    requires forall k :: k in rest <==> k in keys - {least}
    requires forall a, b :: 0 <= a < b < |rest| ==> rest[a] < rest[b]
    ensures |[least] + rest| == |keys|
    ensures forall k :: k in [least] + rest <==> k in keys
    ensures forall a, b :: 0 <= a < b < |[least] + rest| ==> ([least] + rest)[a] < ([least] + rest)[b]
  {
    var r := [least] + rest;
    assert forall k :: k in rest ==> least < k;
    forall a, b | 0 <= a < b < |r| ensures r[a] < r[b] {
      assert r[b] == rest[b - 1] && rest[b - 1] in rest;
      if a > 0 {
        assert r[a] == rest[a - 1];
      }
    }
  }

  /** Every row of `items`, as items, in increasing id order. */
  function Rows(items: map<int, ItemRow>): (r: seq<Item>)
    ensures |r| == |items|
    ensures forall i :: 0 <= i < |r| ==> r[i].id in items && r[i] == ItemOf(r[i].id, items[r[i].id])
    ensures forall a, b :: 0 <= a < b < |r| ==> r[a].id < r[b].id
  {
    var ids := Ascending(items.Keys);
    seq(|ids|, i requires 0 <= i < |ids| => ItemOf(ids[i], items[ids[i]]))
  }

  /** Each row of `items` is among its rows. */
  lemma RowsHoldEveryRow(items: map<int, ItemRow>, id: int)
    requires id in items
    ensures ItemOf(id, items[id]) in Rows(items)
  {
    var ids := Ascending(items.Keys);
    var i :| 0 <= i < |ids| && ids[i] == id;
    assert Rows(items)[i] == ItemOf(id, items[id]);
  }

  /** Newest first: no item is older than one after it. */
  ghost predicate NewestFirst(s: seq<Item>)
  {
    forall a, b :: 0 <= a < b < |s| ==> s[a].publicationDate >= s[b].publicationDate
  }

  /** `x` placed into the newest-first `s` after every item newer than it. */
  function InsertByDate(x: Item, s: seq<Item>): (r: seq<Item>)
    requires NewestFirst(s)
    ensures NewestFirst(r)
    ensures multiset(r) == multiset(s) + multiset{x}
    ensures |r| == |s| + 1
    ensures r[0] == x || (s != [] && r[0] == s[0])
  {
    if s == [] || x.publicationDate >= s[0].publicationDate then
      [x] + s
    else
      var tail := InsertByDate(x, s[1..]);
      assert s == [s[0]] + s[1..];
      [s[0]] + tail
  }

  /** The rows in descending publication date. */
  function OrderByDateDesc(s: seq<Item>): (r: seq<Item>)
    ensures NewestFirst(r)
    ensures multiset(r) == multiset(s)
  {
    if s == [] then
      []
    else
      assert s == [s[0]] + s[1..];
      InsertByDate(s[0], OrderByDateDesc(s[1..]))
  }

  /** The result of `ListItems(limit)`. The code appends `LIMIT n` with no
      space before it, so every limit but `AllItems` makes the query text
      `... DESCLIMIT n`, which the database refuses. */
  function Listing(db: Db, limit: int): (r: Result<seq<Item>>)
    ensures r.Err? <==> limit != AllItems
    ensures r.Err? ==> r.error == QueryError
    ensures r.Ok? ==> NewestFirst(r.value) && multiset(r.value) == multiset(Rows(db.items))
  {
    if limit != AllItems then Err(QueryError) else Ok(OrderByDateDesc(Rows(db.items)))
  }

  /** The listing is every row exactly once, newest first; any other limit
      is an error. */
  lemma ListingIsEveryRowNewestFirst(db: Db, limit: int)
    ensures limit != AllItems <==> Listing(db, limit) == Err(QueryError)
    ensures limit == AllItems ==>
      var r := Listing(db, limit).value;
      && NewestFirst(r)
      && |r| == |db.items|
      && (forall id :: id in db.items ==> ItemOf(id, db.items[id]) in r)
      && (forall x :: x in r ==> x.id in db.items && x == ItemOf(x.id, db.items[x.id]))
      && (forall x :: multiset(r)[x] <= 1)
  {
    if limit == AllItems {
      var rows := Rows(db.items);
      var r := OrderByDateDesc(rows);
      SameElements(r, rows);
      forall id | id in db.items ensures ItemOf(id, db.items[id]) in r {
        RowsHoldEveryRow(db.items, id);
      }
      forall x ensures multiset(r)[x] <= 1 {
        DistinctCount(rows, x);
      }
    }
  }

  /** `ListItems(limit)` with the space before `LIMIT`: every row newest
      first, cut to `limit` rows when `limit` is not `AllItems`; the
      database refuses a negative limit. */
  function ListingWithLimit(db: Db, limit: int): (r: Result<seq<Item>>)
    ensures r.Err? <==> limit < 0
    ensures r.Err? ==> r.error == QueryError
  {
    var all := Listing(db, AllItems).value;
    if limit == AllItems then Ok(all)
    else if limit < 0 then Err(QueryError)
    else if limit < |all| then Ok(all[..limit])
    else Ok(all)
  }

  /** With the space, a non-negative limit gives the newest `limit` rows,
      a prefix of the full listing; `AllItems` gives every row. */
  lemma ListingWithLimitIsNewestPrefix(db: Db, limit: int, all: seq<Item>, r: seq<Item>)
    requires Listing(db, AllItems) == Ok(all) && ListingWithLimit(db, limit) == Ok(r)
    ensures r <= all
    ensures NewestFirst(r)
    ensures |r| == if limit == AllItems || |db.items| <= limit then |db.items| else limit
    ensures forall x :: x in r ==> x.id in db.items && x == ItemOf(x.id, db.items[x.id])
  {
    ListedRows(db, all);
    if limit == AllItems || |all| <= limit {
      assert r == all;
    } else {
      assert r == all[..limit];
    }
    PrefixOf(r, all);
  }

  /** A prefix of a newest-first listing is newest first, and its members
      are members of the whole. */
  lemma PrefixOf(r: seq<Item>, all: seq<Item>)
    requires r <= all && NewestFirst(all)
    ensures NewestFirst(r)
    ensures forall x :: x in r ==> x in all
  {
    forall x | x in r
      ensures x in all
    {
      var j :| 0 <= j < |r| && r[j] == x;
      assert all[j] == x;
    }
  }

  /** The full listing, by name. */
  lemma ListedRows(db: Db, all: seq<Item>)
    requires Listing(db, AllItems) == Ok(all)
    ensures NewestFirst(all) && |all| == |db.items|
    ensures forall x :: x in all ==> x.id in db.items && x == ItemOf(x.id, db.items[x.id])
  {
    ListingIsEveryRowNewestFirst(db, AllItems);
  }

  /** As written, every positive limit is refused where the listing with
      the space returns rows. */
  lemma ListingRefusesEveryLimit(db: Db, limit: int)
    requires limit > 0
    ensures Listing(db, limit) == Err(QueryError)
    ensures ListingWithLimit(db, limit).Ok?
  {
  }

  /** Two orderings of one multiset have the same length and members. */
  lemma SameElements(a: seq<Item>, b: seq<Item>)
    requires multiset(a) == multiset(b)
    ensures |a| == |b|
    ensures forall x :: x in a <==> x in b
  {
    assert |multiset(a)| == |multiset(b)|;
    forall x ensures x in a <==> x in b {
      assert x in a <==> x in multiset(a);
      assert x in b <==> x in multiset(b);
    }
  }

  /** A sequence with strictly increasing ids holds each item at most once. */
  lemma {:induction false} DistinctCount(s: seq<Item>, x: Item)
    requires forall a, b :: 0 <= a < b < |s| ==> s[a].id < s[b].id
    ensures multiset(s)[x] <= 1
  {
    if s != [] {
      assert s == [s[0]] + s[1..];
      DistinctCount(s[1..], x);
      if s[0] == x {
        assert x !in s[1..];
      }
    }
  }

  // ---------------------------------------------------------------------
  // The transaction of CreateFeed
  // ---------------------------------------------------------------------

  /** The item upserts of `CreateFeed`, in order: each item gets the feed's
      id and then the id its row has. Returns the new state and the items as
      the code leaves them. */
  function UpsertItems(db: Db, feedId: int, items: seq<Item>): (r: (Db, seq<Item>))
    requires Consistent(db)
    ensures Consistent(r.0)
    ensures r.0.nextItemId == db.nextItemId + |items|
    ensures |r.1| == |items|
    ensures forall j :: 0 <= j < |items| ==> r.1[j] == items[j].(feedId := feedId, id := r.1[j].id)
    ensures r.0.feeds == db.feeds && r.0.nextFeedId == db.nextFeedId
    decreases |items|
  {
    if items == [] then
      (db, [])
    else
      var last := items[|items| - 1].(feedId := feedId);
      var (before, saved) := UpsertItems(db, feedId, items[..|items| - 1]);
      var (after, id) := UpsertItem(before, last);
      UpsertItemIsConsistent(before, last);
      (after, saved + [last.(id := id)])
  }

  /** What `CreateFeed` leaves behind when nothing fails: the state, the
      feed with its id, and the items with their feed's id and their own. */
  function CreateFeedEffect(db: Db, feed: Feed, items: seq<Item>): (r: (Db, Feed, seq<Item>))
    requires Consistent(db)
    ensures Consistent(r.0)
    ensures r.1 == feed.(id := r.1.id)
    ensures r.1.id in r.0.feeds && r.0.feeds[r.1.id] == FeedRow(feed.title, feed.description, feed.link, feed.image)
    ensures |r.2| == |items|
    ensures forall j :: 0 <= j < |items| ==> r.2[j] == items[j].(feedId := r.1.id, id := r.2[j].id)
    ensures r.0.nextFeedId == db.nextFeedId + 1 && r.0.nextItemId == db.nextItemId + |items|
    ensures forall j :: 0 <= j < |items| ==>
      r.2[j].id in r.0.items && r.0.items[r.2[j].id].feedId == r.1.id && r.0.items[r.2[j].id].link == items[j].link
    ensures forall j :: 0 <= j < |items| && LastWithLink(items, j) ==>
      r.0.items[r.2[j].id].title == items[j].title && r.0.items[r.2[j].id].publicationDate == items[j].publicationDate
    ensures forall j :: 0 <= j < |items| && r.2[j].id !in db.items ==>
      !r.0.items[r.2[j].id].read && !r.0.items[r.2[j].id].ignored && !r.0.items[r.2[j].id].starred
  {
    var (withFeed, feedId) := UpsertFeed(db, feed);
    UpsertFeedIsConsistent(db, feed);
    UpsertItemsStoresEveryItem(withFeed, feedId, items);
    UpsertItemsStoresTitles(withFeed, feedId, items);
    var (after, saved) := UpsertItems(withFeed, feedId, items);
    (after, feed.(id := feedId), saved)
  }

  // ---------------------------------------------------------------------
  // Properties of the statements
  // ---------------------------------------------------------------------

  /** A feed upsert keeps the schema's constraints. */
  lemma UpsertFeedIsConsistent(db: Db, feed: Feed)
    requires Consistent(db)
    ensures Consistent(UpsertFeed(db, feed).0)
  {
    var (db', id) := UpsertFeed(db, feed);
    forall a, b | a in db'.feeds && b in db'.feeds && LinkOf(db'.feeds, a) == LinkOf(db'.feeds, b)
      ensures a == b
    {
      assert a == id || (a in db.feeds && LinkOf(db.feeds, a) == LinkOf(db'.feeds, a));
      assert b == id || (b in db.feeds && LinkOf(db.feeds, b) == LinkOf(db'.feeds, b));
      assert id in db.feeds ==> LinkOf(db.feeds, id) == LinkOf(db'.feeds, id);
    }
  }

  /** An item upsert keeps the schema's constraints. */
  lemma UpsertItemIsConsistent(db: Db, item: Item)
    requires Consistent(db)
    ensures Consistent(UpsertItem(db, item).0)
  {
    var (db', id) := UpsertItem(db, item);
    forall a, b | a in db'.items && b in db'.items && KeyOf(db'.items, a) == KeyOf(db'.items, b)
      ensures a == b
    {
      assert a == id || (a in db.items && KeyOf(db.items, a) == KeyOf(db'.items, a));
      assert b == id || (b in db.items && KeyOf(db.items, b) == KeyOf(db'.items, b));
      assert id in db.items ==> KeyOf(db.items, id) == KeyOf(db'.items, id);
    }
  }

  /** Ingesting a feed with a link already stored keeps its row and its
      id: the table gains no row and only the title, description and icon
      change. */
  lemma ReingestedFeedKeepsItsRow(db: Db, first: Feed, second: Feed)
    requires Consistent(db)
    requires first.link == second.link
    ensures var (db1, id1) := UpsertFeed(db, first);
      Consistent(db1) &&
      var (db2, id2) := UpsertFeed(db1, second);
      && id2 == id1
      && db2.feeds.Keys == db1.feeds.Keys
      && db2.feeds[id2] == FeedRow(second.title, second.description, second.link, second.image)
  {
    UpsertFeedIsConsistent(db, first);
    var (db1, id1) := UpsertFeed(db, first);
    var (db2, id2) := UpsertFeed(db1, second);
    assert LinkOf(db1.feeds, id1) == LinkOf(db1.feeds, id2);
  }

  /** Ingesting an item whose feed and link are already stored keeps its
      row, its id and its read, ignored and starred flags. */
  lemma ReingestedItemKeepsItsFlags(db: Db, first: Item, second: Item)
    requires Consistent(db)
    requires first.feedId == second.feedId && first.link == second.link
    ensures var (db1, id1) := UpsertItem(db, first);
      Consistent(db1) &&
      var (db2, id2) := UpsertItem(db1, second);
      && id2 == id1
      && db2.items.Keys == db1.items.Keys
      && db2.items[id2] == db1.items[id1].(title := second.title, publicationDate := second.publicationDate)
  {
    UpsertItemIsConsistent(db, first);
    var (db1, id1) := UpsertItem(db, first);
    var (db2, id2) := UpsertItem(db1, second);
    assert KeyOf(db1.items, id1) == KeyOf(db1.items, id2);
  }

  /** Setting a flag twice is setting it once, and the later of two
      settings of one flag wins: `ReadItem` twice leaves it read, and
      `UnreadItem` after `ReadItem` leaves it unread. */
  lemma UpdateLastWins(db: Db, id: int, flag: Flag, first: bool, second: bool)
    ensures Update(Update(db, id, flag, first), id, flag, second) == Update(db, id, flag, second)
  {
    if id in db.items {
      var row := db.items[id];
      assert WithRowFlag(WithRowFlag(row, flag, first), flag, second) == WithRowFlag(row, flag, second);
    }
  }

  /** Flags of different columns are independent. */
  lemma UpdatesCommute(db: Db, id: int, f1: Flag, v1: bool, f2: Flag, v2: bool)
    requires f1 != f2
    ensures Update(Update(db, id, f1, v1), id, f2, v2) == Update(Update(db, id, f2, v2), id, f1, v1)
  {
    if id in db.items {
      var row := db.items[id];
      assert WithRowFlag(WithRowFlag(row, f1, v1), f2, v2) == WithRowFlag(WithRowFlag(row, f2, v2), f1, v1);
    }
  }

  /** An update never changes which rows exist nor breaks a constraint. */
  lemma UpdateIsConsistent(db: Db, id: int, flag: Flag, status: bool)
    requires Consistent(db)
    ensures Consistent(Update(db, id, flag, status))
  {
    var db' := Update(db, id, flag, status);
    forall a, b | a in db'.items && b in db'.items && KeyOf(db'.items, a) == KeyOf(db'.items, b)
      ensures a == b
    {
      assert KeyOf(db'.items, a) == KeyOf(db.items, a) && KeyOf(db'.items, b) == KeyOf(db.items, b);
    }
  }

  /** Every item passed to `CreateFeed` ends up stored under the id it was
      given, with the feed's id. */
  lemma {:induction false} UpsertItemsStoresEveryItem(db: Db, feedId: int, items: seq<Item>)
    requires Consistent(db)
    ensures var (after, saved) := UpsertItems(db, feedId, items);
      forall j :: 0 <= j < |items| ==>
        saved[j].id in after.items && after.items[saved[j].id].feedId == feedId
        && after.items[saved[j].id].link == items[j].link
    decreases |items|
  {
    if items != [] {
      var n := |items| - 1;
      var last := items[n].(feedId := feedId);
      var (before, saved) := UpsertItems(db, feedId, items[..n]);
      UpsertItemsStoresEveryItem(db, feedId, items[..n]);
      var (after, id) := UpsertItem(before, last);
      var all := UpsertItems(db, feedId, items).1;
      assert all == saved + [last.(id := id)];
      forall j | 0 <= j < |items|
        ensures all[j].id in after.items && after.items[all[j].id].feedId == feedId
             && after.items[all[j].id].link == items[j].link
      {
        if j < n {
          assert all[j] == saved[j];
          assert saved[j].id in before.items;
          var k := saved[j].id;
          if k != id {
            assert after.items[k] == before.items[k];
          } else {
            assert after.items[k].feedId == feedId && after.items[k].link == last.link;
            assert before.items[k].feedId == feedId && before.items[k].link == items[..n][j].link;
            assert items[..n][j].link == items[j].link;
          }
        }
      }
    }
  }

  /** The item loop keeps every stored row: its id, feed id, link and
      flags stay, whatever the batch holds. Flags therefore survive
      re-ingestion. */
  lemma {:induction false} UpsertItemsKeepsStoredRows(db: Db, feedId: int, items: seq<Item>, id: int, after: Db)
    requires Consistent(db) && id in db.items
    requires after == UpsertItems(db, feedId, items).0
    ensures id in after.items
    ensures after.items[id].feedId == db.items[id].feedId && after.items[id].link == db.items[id].link
    ensures after.items[id].read == db.items[id].read
    ensures after.items[id].ignored == db.items[id].ignored
    ensures after.items[id].starred == db.items[id].starred
    decreases |items|
  {
    if items != [] {
      var n := |items| - 1;
      var before := UpsertItems(db, feedId, items[..n]).0;
      UpsertItemsKeepsStoredRows(db, feedId, items[..n], id, before);
      assert after == UpsertItem(before, items[n].(feedId := feedId)).0;
    }
  }

  /** A stored row whose key no item of the batch has is not touched by the
      item loop. */
  lemma {:induction false} UpsertItemsLeavesOtherRows(db: Db, feedId: int, items: seq<Item>, id: int, after: Db)
    requires Consistent(db) && id in db.items
    requires after == UpsertItems(db, feedId, items).0
    requires db.items[id].feedId != feedId || forall j :: 0 <= j < |items| ==> items[j].link != db.items[id].link
    ensures id in after.items && after.items[id] == db.items[id]
    decreases |items|
  {
    if items != [] {
      var n := |items| - 1;
      var before := UpsertItems(db, feedId, items[..n]).0;
      assert forall j :: 0 <= j < n ==> items[..n][j] == items[j];
      UpsertItemsLeavesOtherRows(db, feedId, items[..n], id, before);
      var (next, newId) := UpsertItem(before, items[n].(feedId := feedId));
      assert after == next;
      if newId == id {
        assert false;
      }
    }
  }

  /** A row the item loop creates starts with every flag false, and a
      later conflict update of that row keeps them false. */
  lemma {:induction false} UpsertItemsNewRowsUnflagged(db: Db, feedId: int, items: seq<Item>, id: int, after: Db)
    requires Consistent(db)
    requires after == UpsertItems(db, feedId, items).0
    requires id in after.items && id !in db.items
    ensures !after.items[id].read && !after.items[id].ignored && !after.items[id].starred
    decreases |items|
  {
    if items != [] {
      var n := |items| - 1;
      var before := UpsertItems(db, feedId, items[..n]).0;
      var (next, newId) := UpsertItem(before, items[n].(feedId := feedId));
      assert after == next;
      if id in before.items {
        UpsertItemsNewRowsUnflagged(db, feedId, items[..n], id, before);
      }
    }
  }

  /** One item upsert keeps the key of every stored row, and leaves a row
      with another link as it was. */
  lemma UpsertItemKeepsRow(before: Db, item: Item, id: int)
    requires Consistent(before) && id in before.items
    ensures var next := UpsertItem(before, item).0;
      && id in next.items
      && next.items[id].feedId == before.items[id].feedId && next.items[id].link == before.items[id].link
      && (before.items[id].link != item.link ==> next.items[id] == before.items[id])
  {
  }

  /** No item after the `j`-th of the batch has its link. */
  ghost predicate LastWithLink(items: seq<Item>, j: int)
    requires 0 <= j < |items|
  {
    forall k :: j < k < |items| ==> items[k].link != items[j].link
  }

  lemma LastWithLinkInPrefix(items: seq<Item>, j: int, n: int)
    requires 0 <= j < n <= |items| && LastWithLink(items, j)
    ensures LastWithLink(items[..n], j)
  {
    assert forall k :: j < k < n ==> items[..n][k] == items[k];
  }

  /** The row of batch item `j` holds the feed's id and the item's link,
      and the item's title and date when no later item of the batch has its
      link. */
  lemma {:induction false} UpsertItemsStoresTitle(db: Db, feedId: int, items: seq<Item>, j: int, after: Db, saved: seq<Item>)
    requires Consistent(db) && 0 <= j < |items|
    requires after == UpsertItems(db, feedId, items).0 && saved == UpsertItems(db, feedId, items).1
    ensures saved[j].id in after.items
    ensures after.items[saved[j].id].feedId == feedId && after.items[saved[j].id].link == items[j].link
    ensures LastWithLink(items, j) ==>
      after.items[saved[j].id].title == items[j].title
      && after.items[saved[j].id].publicationDate == items[j].publicationDate
    decreases |items|
  {
    var n := |items| - 1;
    var before := UpsertItems(db, feedId, items[..n]).0;
    var prior := UpsertItems(db, feedId, items[..n]).1;
    var last := items[n].(feedId := feedId);
    assert after == UpsertItem(before, last).0;
    assert saved == prior + [last.(id := UpsertItem(before, last).1)];
    if j < n {
      assert items[..n][j] == items[j] && saved[j] == prior[j];
      UpsertItemsStoresTitle(db, feedId, items[..n], j, before, prior);
      UpsertItemKeepsRow(before, last, prior[j].id);
      if LastWithLink(items, j) {
        LastWithLinkInPrefix(items, j, n);
        assert items[n].link != items[j].link;
      }
    }
  }

  /** The rows of a batch: each item's row holds the feed's id and the
      item's link; the last item with a given link leaves its title and date
      there; a row the batch created has all three flags false. */
  lemma UpsertItemsStoresTitles(db: Db, feedId: int, items: seq<Item>)
    requires Consistent(db)
    ensures var (after, saved) := UpsertItems(db, feedId, items);
      forall j :: 0 <= j < |items| ==>
        && saved[j].id in after.items
        && (LastWithLink(items, j) ==>
             after.items[saved[j].id].title == items[j].title
             && after.items[saved[j].id].publicationDate == items[j].publicationDate)
        && (saved[j].id !in db.items ==>
             !after.items[saved[j].id].read && !after.items[saved[j].id].ignored && !after.items[saved[j].id].starred)
  {
    var (after, saved) := UpsertItems(db, feedId, items);
    forall j | 0 <= j < |items|
      ensures saved[j].id in after.items
      ensures LastWithLink(items, j) ==>
        after.items[saved[j].id].title == items[j].title
        && after.items[saved[j].id].publicationDate == items[j].publicationDate
      ensures saved[j].id !in db.items ==>
        !after.items[saved[j].id].read && !after.items[saved[j].id].ignored && !after.items[saved[j].id].starred
    {
      UpsertItemsStoresTitle(db, feedId, items, j, after, saved);
      if saved[j].id !in db.items {
        UpsertItemsNewRowsUnflagged(db, feedId, items, saved[j].id, after);
      }
    }
  }

  /** One more round of the item loop of `CreateFeed`. */
  lemma UpsertItemsStep(start: Db, feedId: int, input: seq<Item>, i: nat, before: Db, saved: seq<Item>,
                        item: Item, db: Db, id: int)
    requires Consistent(start) && i < |input|
    requires before == UpsertItems(start, feedId, input[..i]).0
    requires saved == UpsertItems(start, feedId, input[..i]).1
    requires item == input[i].(feedId := feedId)
    requires Consistent(before) && (db, id) == UpsertItem(before, item)
    ensures db == UpsertItems(start, feedId, input[..i + 1]).0
    ensures saved + [item.(id := id)] == UpsertItems(start, feedId, input[..i + 1]).1
  {
    assert input[..i + 1][..i] == input[..i];
  }

  /** Re-ingesting a feed through `CreateFeed` keeps every item row stored
      before: its id, feed id, link and read, ignored and starred flags stay,
      and a row whose key no item of the batch has is unchanged. */
  lemma CreateFeedKeepsStoredItems(db: Db, feed: Feed, items: seq<Item>, id: int)
    requires Consistent(db) && id in db.items
    ensures var r := CreateFeedEffect(db, feed, items);
      && id in r.0.items
      && r.0.items[id].feedId == db.items[id].feedId && r.0.items[id].link == db.items[id].link
      && r.0.items[id].read == db.items[id].read
      && r.0.items[id].ignored == db.items[id].ignored
      && r.0.items[id].starred == db.items[id].starred
    ensures var r := CreateFeedEffect(db, feed, items);
      db.items[id].feedId != r.1.id || (forall j :: 0 <= j < |items| ==> items[j].link != db.items[id].link) ==>
      r.0.items[id] == db.items[id]
  {
    var (withFeed, feedId) := UpsertFeed(db, feed);
    UpsertFeedIsConsistent(db, feed);
    var after := UpsertItems(withFeed, feedId, items).0;
    UpsertItemsKeepsStoredRows(withFeed, feedId, items, id, after);
    if db.items[id].feedId != feedId || forall j :: 0 <= j < |items| ==> items[j].link != db.items[id].link {
      UpsertItemsLeavesOtherRows(withFeed, feedId, items, id, after);
    }
  }

  /** `CreateFeedEffect` from the results of its two steps. */
  lemma EffectOfCreateFeed(db: Db, feed: Feed, items: seq<Item>, withFeed: Db, feedId: int,
                           after: Db, saved: seq<Item>)
    requires Consistent(db)
    requires (withFeed, feedId) == UpsertFeed(db, feed)
    requires Consistent(withFeed)
    requires after == UpsertItems(withFeed, feedId, items).0
    requires saved == UpsertItems(withFeed, feedId, items).1
    ensures CreateFeedEffect(db, feed, items) == (after, feed.(id := feedId), saved)
  {
  }

  /** Tables rolled back under sequences that only moved forward still
      keep the constraints. */
  lemma RollbackIsConsistent(before: Db, now: Db)
    requires Consistent(before)
    requires now.nextFeedId >= before.nextFeedId && now.nextItemId >= before.nextItemId
    ensures Consistent(before.(nextFeedId := now.nextFeedId, nextItemId := now.nextItemId))
  {
  }

  // ---------------------------------------------------------------------
  // The repository
  // ---------------------------------------------------------------------

  /** repository/repository.go `repository`: a connection to the database,
      seen as the state of its tables and sequences. */
  class SqlRepository {
    var feeds: map<int, FeedRow>
    var items: map<int, ItemRow>
    var nextFeedId: int
    var nextItemId: int

    function State(): Db
      reads this
    {
      Db(feeds, items, nextFeedId, nextItemId)
    }

    ghost predicate Valid()
      reads this
    {
      Consistent(State())
    }

    /** `New(db)`: a repository over a database in any consistent state. */
    constructor(db: Db)
      requires Consistent(db)
      ensures State() == db
      ensures Valid()
    {
      feeds := db.feeds;
      items := db.items;
      nextFeedId := db.nextFeedId;
      nextItemId := db.nextItemId;
    }

    method Apply(db: Db)
      modifies this
      ensures State() == db
    {
      feeds := db.feeds;
      items := db.items;
      nextFeedId := db.nextFeedId;
      nextItemId := db.nextItemId;
    }

    /** `ListItems(limit)`; it changes nothing. */
    method ListItems(limit: int) returns (r: Result<seq<Item>>)
      ensures r == Listing(State(), limit)
      ensures limit != AllItems ==> r == Err(QueryError)
      ensures limit == AllItems ==> r.Ok? && NewestFirst(r.value) && |r.value| == |items|
    {
      ListingIsEveryRowNewestFirst(State(), limit);
      r := Listing(State(), limit);
    }

    /** `setItemRead`, `setItemIgnored` and `setItemStarred`: one `UPDATE`
        of one flag column. A missing id is no error. */
    method SetItemFlag(id: int, flag: Flag, status: bool) returns (err: Option<Error>)
      requires Valid()
      modifies this
      ensures Valid()
      ensures State() == Update(old(State()), id, flag, status)
      ensures err == None
    {
      UpdateIsConsistent(State(), id, flag, status);
      Apply(Update(State(), id, flag, status));
      err := None;
    }

    method ReadItem(id: int) returns (err: Option<Error>)
      requires Valid()
      modifies this
      ensures Valid()
      ensures State() == Update(old(State()), id, ReadFlag, true) && err == None
    {
      err := SetItemFlag(id, ReadFlag, true);
    }

    method UnreadItem(id: int) returns (err: Option<Error>)
      requires Valid()
      modifies this
      ensures Valid()
      ensures State() == Update(old(State()), id, ReadFlag, false) && err == None
    {
      err := SetItemFlag(id, ReadFlag, false);
    }

    method IgnoreItem(id: int) returns (err: Option<Error>)
      requires Valid()
      modifies this
      ensures Valid()
      ensures State() == Update(old(State()), id, IgnoredFlag, true) && err == None
    {
      err := SetItemFlag(id, IgnoredFlag, true);
    }

    method UnignoreItem(id: int) returns (err: Option<Error>)
      requires Valid()
      modifies this
      ensures Valid()
      ensures State() == Update(old(State()), id, IgnoredFlag, false) && err == None
    {
      err := SetItemFlag(id, IgnoredFlag, false);
    }

    method StarItem(id: int) returns (err: Option<Error>)
      requires Valid()
      modifies this
      ensures Valid()
      ensures State() == Update(old(State()), id, StarredFlag, true) && err == None
    {
      err := SetItemFlag(id, StarredFlag, true);
    }

    method UnstarItem(id: int) returns (err: Option<Error>)
      requires Valid()
      modifies this
      ensures Valid()
      ensures State() == Update(old(State()), id, StarredFlag, false) && err == None
    {
      err := SetItemFlag(id, StarredFlag, false);
    }

    /** `GetItem(id)`; it changes nothing. */
    method GetItem(id: int) returns (r: Result<Item>)
      ensures r == SelectItem(State(), id)
      ensures r.Ok? <==> id in items
      ensures r.Ok? ==> r.value.id == 0
    {
      r := SelectItem(State(), id);
    }

    /** `CreateItem(item)`: one item upsert outside a transaction. Returns
        the item with the id its row has. */
    method CreateItem(item: Item) returns (saved: Item)
      requires Valid()
      modifies this
      ensures Valid()
      ensures (State(), saved.id) == UpsertItem(old(State()), item)
      ensures saved == item.(id := saved.id)
    {
      UpsertItemIsConsistent(State(), item);
      var (db, id) := UpsertItem(State(), item);
      Apply(db);
      saved := item.(id := id);
    }

    /** The rollback of `CreateFeed`'s transaction: both tables are as they
        were in `before`; the sequences keep the values they have reached. */
    method Rollback(before: Db)
      requires Consistent(before)
      requires nextFeedId >= before.nextFeedId && nextItemId >= before.nextItemId
      modifies this
      ensures Valid()
      ensures feeds == before.feeds && items == before.items
      ensures nextFeedId == old(nextFeedId) && nextItemId == old(nextItemId)
    {
      RollbackIsConsistent(before, State());
      feeds, items := before.feeds, before.items;
    }

    /** The feed upsert of `CreateFeed`, inside its transaction. */
    method WriteFeed(feed: Feed) returns (feedId: int)
      requires Valid()
      modifies this
      ensures Valid()
      ensures (State(), feedId) == UpsertFeed(old(State()), feed)
      ensures nextFeedId == old(nextFeedId) + 1 && nextItemId == old(nextItemId)
    {
      UpsertFeedIsConsistent(State(), feed);
      var (db, id) := UpsertFeed(State(), feed);
      Apply(db);
      feedId := id;
    }

    /** The item loop of `CreateFeed`: each item of `batch` in order gets
        `feedId` and is upserted, until the `failAt`-th, whose upsert is
        refused after it got `feedId`. Returns whether a write was refused. */
    method WriteItems(feedId: int, batch: array<Item>, failAt: nat) returns (refused: bool)
      requires Valid()
      modifies this, batch
      ensures Valid()
      ensures refused <==> failAt < batch.Length
      ensures var n := if refused then failAt else batch.Length;
        && State() == UpsertItems(old(State()), feedId, old(batch[..])[..n]).0
        && batch[..n] == UpsertItems(old(State()), feedId, old(batch[..])[..n]).1
      ensures refused ==> batch[failAt] == old(batch[failAt]).(feedId := feedId)
      ensures refused ==> forall j :: failAt < j < batch.Length ==> batch[j] == old(batch[j])
      ensures nextFeedId == old(nextFeedId)
      ensures nextItemId == old(nextItemId) + if refused then failAt else batch.Length
    {
      ghost var start := State();
      ghost var input := batch[..];
      var i := 0;
      while i < batch.Length
        invariant 0 <= i <= batch.Length && i <= failAt
        invariant State() == UpsertItems(start, feedId, input[..i]).0
        invariant batch[..i] == UpsertItems(start, feedId, input[..i]).1
        invariant forall j :: i <= j < batch.Length ==> batch[j] == input[j]
        invariant nextFeedId == start.nextFeedId && nextItemId == start.nextItemId + i
      {
        ghost var before, saved := State(), batch[..i];
        var item := batch[i].(feedId := feedId);
        batch[i] := item;
        if i == failAt {
          assert input == old(batch[..]) && start == old(State());
          return true;
        }
        var (db, id) := UpsertItem(State(), item);
        Apply(db);
        batch[i] := item.(id := id);
        UpsertItemsStep(start, feedId, input, i, before, saved, item, db, id);
        assert batch[..i] == saved;
        Extend(batch, i);
        i := i + 1;
      }
      assert input == old(batch[..]) && start == old(State());
      refused := false;
    }

    /** `CreateFeed(feed, items...)`: in one transaction, the feed upsert and
        then, for each item in order, setting its feed id and its upsert.
        Any failure rolls both tables back. The feed and the items are
        updated in place as the code does, and keep what was written into
        them before a failure; a sequence value once drawn stays drawn. */
    method CreateFeed(feed: Feed, batch: array<Item>, fault: Fault) returns (saved: Feed, err: Option<Error>)
      requires Valid()
      modifies this, batch
      ensures Valid()
      ensures var effect := CreateFeedEffect(old(State()), feed, old(batch[..]));
        fault == NoFault || (fault.ItemWriteFails? && fault.k >= batch.Length) ==>
        && err == None
        && State() == effect.0
        && saved == effect.1
        && batch[..] == effect.2
      ensures err.Some? ==> err == Some(StorageError) && feeds == old(feeds) && items == old(items)
      ensures fault.BeginFails? || fault.FeedWriteFails? ==>
        err.Some? && saved == feed && batch[..] == old(batch[..]) && State() == old(State())
      ensures Consistent(UpsertFeed(old(State()), feed).0)
      ensures fault.ItemWriteFails? && fault.k < batch.Length ==>
        && err.Some?
        && saved == CreateFeedEffect(old(State()), feed, old(batch[..])).1
        && batch[..fault.k] == UpsertItems(UpsertFeed(old(State()), feed).0, saved.id, old(batch[..])[..fault.k]).1
        && batch[fault.k] == old(batch[fault.k]).(feedId := saved.id)
        && (forall j :: fault.k < j < batch.Length ==> batch[j] == old(batch[j]))
        && nextFeedId == old(nextFeedId) + 1 && nextItemId == old(nextItemId) + fault.k
      ensures var effect := CreateFeedEffect(old(State()), feed, old(batch[..]));
        fault.CommitFails? ==>
          && err.Some? && saved == effect.1 && batch[..] == effect.2
          && nextFeedId == old(nextFeedId) + 1 && nextItemId == old(nextItemId) + batch.Length
    {
      UpsertFeedIsConsistent(State(), feed);
      saved := feed;
      if fault.BeginFails? || fault.FeedWriteFails? {
        return saved, Some(StorageError);
      }
      var start := State();
      ghost var input := batch[..];
      var feedId := WriteFeed(feed);
      saved := feed.(id := feedId);
      ghost var withFeed := State();
      var failAt := if fault.ItemWriteFails? then fault.k else batch.Length;
      var refused := WriteItems(feedId, batch, failAt);
      if !refused {
        assert input[..batch.Length] == input && batch[..batch.Length] == batch[..];
        EffectOfCreateFeed(start, feed, input, withFeed, feedId, State(), batch[..]);
      }
      if refused || fault.CommitFails? {
        Rollback(start);
        return saved, Some(StorageError);
      }
      err := None;
    }
  }
}
