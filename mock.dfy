/** The in-memory store of mock/repository.go. One counter, `lastID`, hands
    out the ids of feeds and items alike; two maps hold the feeds and the
    items under their ids. Stored records are values here: a caller that
    keeps a record it passed in or got back does not see later changes. */
module Mock {
  import opened Domain

  /** The six flag operations, named after their methods. */
  datatype FlagOp = Read | Unread | Ignore | Unignore | Star | Unstar

  /** The flag each method sets and the value it writes, as the methods are
      written: `UnignoreItem` and `UnstarItem` write true, like
      `IgnoreItem` and `StarItem`. */
  function Written(op: FlagOp): (r: (Flag, bool))
    ensures r.0 == Intended(op).0
    ensures r.1 <==> op != Unread
  {
    match op
    case Read => (ReadFlag, true)
    case Unread => (ReadFlag, false)
    case Ignore => (IgnoredFlag, true)
    case Unignore => (IgnoredFlag, true)
    case Star => (StarredFlag, true)
    case Unstar => (StarredFlag, true)
  }

  /** The flag each method evidently means to set and the value it means to
      write: every `Un` method writes false. */
  function Intended(op: FlagOp): (r: (Flag, bool))
    ensures r.1 <==> op == Read || op == Ignore || op == Star
  {
    match op
    case Read => (ReadFlag, true)
    case Unread => (ReadFlag, false)
    case Ignore => (IgnoredFlag, true)
    case Unignore => (IgnoredFlag, false)
    case Star => (StarredFlag, true)
    case Unstar => (StarredFlag, false)
  }

  /** The operation that undoes a setting one. */
  function Undo(op: FlagOp): (r: FlagOp)
    requires op == Read || op == Ignore || op == Star
    ensures Intended(r).0 == Intended(op).0
    ensures r != op && !Intended(r).1
  {
    match op
    case Read => Unread
    case Ignore => Unignore
    case Star => Unstar
  }

  /** The item table after a flag method on item `id` writes `effect`: a
      missing id is an error that changes nothing. */
  function Flagged(items: map<int, Item>, id: int, effect: (Flag, bool)): (r: Result<map<int, Item>>)
    ensures r.Err? <==> id !in items
    ensures r.Err? ==> r.error == NotFound
    ensures r.Ok? ==> r.value.Keys == items.Keys && r.value[id] == WithFlag(items[id], effect.0, effect.1)
    ensures r.Ok? ==> forall k :: k in items && k != id ==> r.value[k] == items[k]
  {
    if id in items then Ok(items[id := WithFlag(items[id], effect.0, effect.1)]) else Err(NotFound)
  }

  /** Repeating a flag method changes nothing more. */
  lemma FlaggedIsIdempotent(items: map<int, Item>, id: int, op: FlagOp)
    requires id in items
    ensures Flagged(Flagged(items, id, Written(op)).value, id, Written(op)) == Flagged(items, id, Written(op))
  {
    var once := Flagged(items, id, Written(op)).value;
    var (flag, value) := Written(op);
    assert WithFlag(once[id], flag, value) == once[id];
    assert once[id := WithFlag(once[id], flag, value)] == once;
  }

  /** As written, `UnignoreItem` after `IgnoreItem` leaves the item ignored
      and `UnstarItem` after `StarItem` leaves it starred: the `Un` method
      does not undo. */
  lemma WrittenUndoKeepsFlag(items: map<int, Item>, id: int, op: FlagOp)
    requires id in items
    requires op == Ignore || op == Star
    ensures var flag := Written(op).0;
      var set_ := Flagged(items, id, Written(op)).value;
      var undone := Flagged(set_, id, Written(Undo(op))).value;
      FlagOf(undone[id], flag)
  {
  }

  /** With the intended values, an `Un` method undoes its partner: the flag
      ends false, and an item whose flag was false is restored. */
  lemma IntendedUndoRestores(items: map<int, Item>, id: int, op: FlagOp)
    requires id in items
    requires op == Read || op == Ignore || op == Star
    ensures var flag := Intended(op).0;
      var set_ := Flagged(items, id, Intended(op)).value;
      var undone := Flagged(set_, id, Intended(Undo(op))).value;
      && !FlagOf(undone[id], flag)
      && (!FlagOf(items[id], flag) ==> undone == items)
  {
    var flag := Intended(op).0;
    var set_ := Flagged(items, id, Intended(op)).value;
    var undone := Flagged(set_, id, Intended(Undo(op))).value;
    if !FlagOf(items[id], flag) {
      assert undone[id] == items[id];
    }
  }

  /** The written and intended tables differ only at `UnignoreItem` and
      `UnstarItem`. */
  lemma WrittenDiffersOnlyInUndo(op: FlagOp)
    ensures Written(op) != Intended(op) <==> op == Unignore || op == Unstar
  {
  }

  /** The items `RemoveFeed(feedId)` keeps. */
  function WithoutFeed(items: map<int, Item>, feedId: int): (r: map<int, Item>)
    ensures forall k :: k in r ==> k in items && r[k] == items[k] && r[k].feedId != feedId
    ensures forall k :: k in items && items[k].feedId != feedId ==> k in r
  {
    map k | k in items && items[k].feedId != feedId :: items[k]
  }

  /** Removing a feed's items twice is removing them once, and removals of
      two feeds commute. */
  lemma WithoutFeedIdempotentAndCommutes(items: map<int, Item>, f: int, g: int)
    ensures WithoutFeed(WithoutFeed(items, f), f) == WithoutFeed(items, f)
    ensures WithoutFeed(WithoutFeed(items, f), g) == WithoutFeed(WithoutFeed(items, g), f)
  {
  }

  /** The items of a batch after `CreateFeed` of the feed with id `feedId`
      has created them in order: each carries the feed's id, and the ids
      that follow the feed's are handed out one by one. */
  function Stamped(input: seq<Item>, feedId: int): (r: seq<Item>)
    ensures |r| == |input|
    ensures forall j :: 0 <= j < |r| ==> r[j] == input[j].(feedId := feedId, id := feedId + 1 + j)
    decreases |input|
  {
    if input == [] then []
    else Stamped(input[..|input| - 1], feedId) + [input[|input| - 1].(feedId := feedId, id := feedId + |input|)]
  }

  /** The item table after `CreateItem` has stored each record of `saved`
      in order under its id. */
  function Added(items: map<int, Item>, saved: seq<Item>): (r: map<int, Item>)
    ensures forall k :: k in items ==> k in r
    decreases |saved|
  {
    if saved == [] then items
    else Added(items, saved[..|saved| - 1])[saved[|saved| - 1].id := saved[|saved| - 1]]
  }

  /** Storing created items keeps the record of every stored item whose id
      none of them reuses, and stores each of them under its id. */
  lemma {:induction false} AddedKeepsOthers(items: map<int, Item>, saved: seq<Item>, k: int)
    ensures k in items && (forall j :: 0 <= j < |saved| ==> saved[j].id != k) ==>
      k in Added(items, saved) && Added(items, saved)[k] == items[k]
    ensures (exists j :: 0 <= j < |saved| && saved[j].id == k) ==> k in Added(items, saved)
    decreases |saved|
  {
    if saved != [] {
      var n := |saved| - 1;
      AddedKeepsOthers(items, saved[..n], k);
      if exists j :: 0 <= j < |saved| && saved[j].id == k {
        var j :| 0 <= j < |saved| && saved[j].id == k;
        if j < n {
          assert saved[..n][j].id == k;
        }
      }
    }
  }

  /** Creating a feed's batch stores the stamped items under the ids that
      follow the feed's, and keeps every item stored before, whose ids are
      at most the feed's. */
  lemma {:induction false} AddedStamped(items: map<int, Item>, input: seq<Item>, feedId: int,
                                        stamped: seq<Item>, r: map<int, Item>)
    requires forall k :: k in items ==> k <= feedId
    requires stamped == Stamped(input, feedId) && r == Added(items, stamped)
    ensures forall k :: k in r <==> k in items || feedId < k <= feedId + |input|
    ensures forall k :: k in items ==> r[k] == items[k]
    ensures forall j :: 0 <= j < |input| ==> r[feedId + 1 + j] == stamped[j]
    decreases |input|
  {
    if input != [] {
      var n := |input| - 1;
      var front := input[..n];
      assert stamped[..n] == Stamped(front, feedId);
      AddedStamped(items, front, feedId, stamped[..n], Added(items, stamped[..n]));
    }
  }

  /** One more item of the batch created: its stamped copy is appended and
      stored. */
  lemma StampStep(input: seq<Item>, i: int, feedId: int, items: map<int, Item>)
    requires 0 <= i < |input|
    ensures Stamped(input[..i + 1], feedId) == Stamped(input[..i], feedId) + [input[i].(feedId := feedId, id := feedId + 1 + i)]
    ensures Added(items, Stamped(input[..i + 1], feedId))
         == Added(items, Stamped(input[..i], feedId))[feedId + 1 + i := input[i].(feedId := feedId, id := feedId + 1 + i)]
  {
    assert input[..i + 1][..i] == input[..i];
    assert Stamped(input[..i + 1], feedId)[..i] == Stamped(input[..i], feedId);
  }

  /** Overwriting the first element after a prefix. */
  lemma Replace(front: seq<Item>, rest: seq<Item>, x: Item)
    requires rest != []
    ensures (front + rest)[|front| := x] == front + [x] + rest[1..]
  {
  }

  /** A non-empty set of ids has a member. */
  lemma SomeKey(keys: set<int>)
    requires keys != {}
    ensures exists k :: k in keys
  {
    if forall k :: k !in keys {
      assert false;
    }
  }

  /** mock/repository.go `repository`. */
  class Repository {
    var lastID: int
    var feeds: map<int, Feed>
    var items: map<int, Item>

    /** Every record is stored under its own id, which the counter has
        already handed out. */
    ghost predicate Valid()
      reads this
    {
      && 0 <= lastID
      && (forall id :: id in feeds ==> feeds[id].id == id && 1 <= id <= lastID)
      && (forall id :: id in items ==> items[id].id == id && 1 <= id <= lastID)
    }

    /** `NewRepository()`. */
    constructor()
      ensures Valid()
      ensures lastID == 0 && feeds == map[] && items == map[]
    {
      lastID := 0;
      feeds := map[];
      items := map[];
    }

    /** `CreateItem(item)`: the item gets the next id and is stored under
        it, even when an item with the same feed and link is stored. */
    method CreateItem(item: Item) returns (saved: Item, err: Option<Error>)
      requires Valid()
      modifies this
      ensures Valid()
      ensures lastID == old(lastID) + 1
      ensures saved == item.(id := lastID)
      ensures saved.id !in old(items) && saved.id !in old(feeds)
      ensures items == old(items)[saved.id := saved] && |items| == |old(items)| + 1
      ensures feeds == old(feeds)
      ensures err == None
    {
      lastID := lastID + 1;
      saved := item.(id := lastID);
      items := items[saved.id := saved];
      err := None;
    }

    /** `CreateFeed(feed, items...)`: the feed gets the next id and is
        stored; then each item in order gets the feed's id and is created
        with `CreateItem`. The feed and the items are updated in place. */
    method CreateFeed(feed: Feed, batch: array<Item>) returns (saved: Feed, err: Option<Error>)
      requires Valid()
      modifies this, batch
      ensures Valid()
      ensures saved == feed.(id := old(lastID) + 1) && saved.id !in old(feeds)
      ensures feeds == old(feeds)[saved.id := saved]
      ensures lastID == saved.id + batch.Length
      ensures batch[..] == Stamped(old(batch[..]), saved.id)
      ensures items == Added(old(items), batch[..])
      ensures forall k :: k in items <==> k in old(items) || saved.id < k <= lastID
      ensures forall k :: k in old(items) ==> items[k] == old(items)[k]
      ensures forall j :: 0 <= j < batch.Length ==> items[saved.id + 1 + j] == batch[j]
      ensures err == None
    {
      lastID := lastID + 1;
      saved := feed.(id := lastID);
      feeds := feeds[saved.id := saved];
      ghost var before := items;
      ghost var input := batch[..];
      CreateItems(saved.id, batch);
      AddedStamped(before, input, saved.id, batch[..], items);
      err := None;
    }

    /** The loop of `CreateFeed` over its items, after the feed has taken
        the id `feedId`. */
    method CreateItems(feedId: int, batch: array<Item>)
      requires Valid() && lastID == feedId
      modifies this, batch
      ensures Valid()
      ensures feeds == old(feeds) && lastID == feedId + batch.Length
      ensures batch[..] == Stamped(old(batch[..]), feedId)
      ensures items == Added(old(items), batch[..])
    {
      ghost var input := batch[..];
      var i := 0;
      while i < batch.Length
        invariant 0 <= i <= batch.Length
        invariant Valid() && feeds == old(feeds) && lastID == feedId + i
        invariant batch[..] == Stamped(input[..i], feedId) + input[i..]
        invariant items == Added(old(items), Stamped(input[..i], feedId))
      {
        ghost var front := Stamped(input[..i], feedId);
        assert batch[i] == input[i];
        var created, _ := CreateItem(batch[i].(feedId := feedId));
        ghost var prev := batch[..];
        batch[i] := created;
        assert batch[..] == prev[i := created];
        StampStep(input, i, feedId, old(items));
        Replace(front, input[i..], created);
        assert input[i..][1..] == input[i + 1..];
        assert created == input[i].(feedId := feedId, id := feedId + 1 + i);
        assert prev == front + input[i..] && |front| == i;
        assert batch[..] == front + [created] + input[i + 1..];
        assert Stamped(input[..i + 1], feedId) == front + [created];
        i := i + 1;
      }
      assert input[..batch.Length] == input && input[batch.Length..] == [];
    }

    /** `RemoveFeed(feedId)`: every item of that feed is deleted while the
        items are ranged over. The feed itself stays, and a feed with no
        items is no error. */
    method RemoveFeed(feedId: int) returns (err: Option<Error>)
      requires Valid()
      modifies this
      ensures Valid()
      ensures items == WithoutFeed(old(items), feedId)
      ensures feeds == old(feeds) && lastID == old(lastID)
      ensures err == None
    {
      var pending := items.Keys;
      while pending != {}
        invariant pending <= old(items).Keys
        invariant Valid() && feeds == old(feeds) && lastID == old(lastID)
        invariant forall k :: k in items ==> k in old(items) && items[k] == old(items)[k]
        invariant forall k :: k in old(items) ==> (k in items <==> k in pending || old(items)[k].feedId != feedId)
        decreases pending
      {
        SomeKey(pending);
        var k :| k in pending;
        if items[k].feedId == feedId {
          items := items - {k};
        }
        pending := pending - {k};
      }
      forall k | true
        ensures k in items <==> k in WithoutFeed(old(items), feedId)
        ensures k in items ==> items[k] == WithoutFeed(old(items), feedId)[k]
      {
      }
      assert items == WithoutFeed(old(items), feedId);
      err := None;
    }

    /** `GetItem(id)`; it changes nothing. */
    method GetItem(id: int) returns (r: Result<Item>)
      requires Valid()
      ensures id in items ==> r == Ok(items[id]) && r.value.id == id
      ensures id !in items ==> r == Err(NotFound)
    {
      if id !in items {
        return Err(NotFound);
      }
      r := Ok(items[id]);
    }

    /** The body shared by the six flag methods: look the item up, fail
        with "not found" if it is absent, otherwise write the flag. */
    method SetFlag(id: int, effect: (Flag, bool)) returns (err: Option<Error>)
      requires Valid()
      modifies this
      ensures Valid()
      ensures var r := Flagged(old(items), id, effect);
        && (r.Err? ==> err == Some(NotFound) && items == old(items))
        && (r.Ok? ==> err == None && items == r.value)
      ensures feeds == old(feeds) && lastID == old(lastID)
    {
      if id !in items {
        return Some(NotFound);
      }
      items := items[id := WithFlag(items[id], effect.0, effect.1)];
      err := None;
    }

    method ReadItem(id: int) returns (err: Option<Error>)
      requires Valid()
      modifies this
      ensures Valid()
      ensures var r := Flagged(old(items), id, (ReadFlag, true));
        (r.Err? ==> err == Some(NotFound) && items == old(items)) && (r.Ok? ==> err == None && items == r.value)
      ensures feeds == old(feeds) && lastID == old(lastID)
    {
      err := SetFlag(id, Written(Read));
    }

    method UnreadItem(id: int) returns (err: Option<Error>)
      requires Valid()
      modifies this
      ensures Valid()
      ensures var r := Flagged(old(items), id, (ReadFlag, false));
        (r.Err? ==> err == Some(NotFound) && items == old(items)) && (r.Ok? ==> err == None && items == r.value)
      ensures feeds == old(feeds) && lastID == old(lastID)
    {
      err := SetFlag(id, Written(Unread));
    }

    method IgnoreItem(id: int) returns (err: Option<Error>)
      requires Valid()
      modifies this
      ensures Valid()
      ensures var r := Flagged(old(items), id, (IgnoredFlag, true));
        (r.Err? ==> err == Some(NotFound) && items == old(items)) && (r.Ok? ==> err == None && items == r.value)
      ensures feeds == old(feeds) && lastID == old(lastID)
    {
      err := SetFlag(id, Written(Ignore));
    }

    /** As written, it sets `ignored` to true. */
    method UnignoreItem(id: int) returns (err: Option<Error>)
      requires Valid()
      modifies this
      ensures Valid()
      ensures var r := Flagged(old(items), id, (IgnoredFlag, true));
        (r.Err? ==> err == Some(NotFound) && items == old(items)) && (r.Ok? ==> err == None && items == r.value)
      ensures feeds == old(feeds) && lastID == old(lastID)
    {
      err := SetFlag(id, Written(Unignore));
    }

    method StarItem(id: int) returns (err: Option<Error>)
      requires Valid()
      modifies this
      ensures Valid()
      ensures var r := Flagged(old(items), id, (StarredFlag, true));
        (r.Err? ==> err == Some(NotFound) && items == old(items)) && (r.Ok? ==> err == None && items == r.value)
      ensures feeds == old(feeds) && lastID == old(lastID)
    {
      err := SetFlag(id, Written(Star));
    }

    /** As written, it sets `starred` to true. */
    method UnstarItem(id: int) returns (err: Option<Error>)
      requires Valid()
      modifies this
      ensures Valid()
      ensures var r := Flagged(old(items), id, (StarredFlag, true));
        (r.Err? ==> err == Some(NotFound) && items == old(items)) && (r.Ok? ==> err == None && items == r.value)
      ensures feeds == old(feeds) && lastID == old(lastID)
    {
      err := SetFlag(id, Written(Unstar));
    }

    /** `ListItems(limit)`: every stored item is appended in the map's
        iteration order, which the model leaves open, and the list is cut
        to `limit` when that is shorter. A negative limit makes the cut
        panic, so it is excluded; `0` gives an empty list whenever an item
        is stored. It changes nothing. */
    method ListItems(limit: int) returns (listed: seq<Item>, err: Option<Error>)
      requires Valid()
      requires 0 <= limit
      ensures err == None
      ensures |listed| == if limit < |items| then limit else |items|
      ensures forall j :: 0 <= j < |listed| ==> listed[j].id in items && items[listed[j].id] == listed[j]
      ensures forall a, b :: 0 <= a < b < |listed| ==> listed[a].id != listed[b].id
      ensures |items| <= limit ==> forall id :: id in items ==> items[id] in listed
    {
      var all: seq<Item> := [];
      var pending := items.Keys;
      while pending != {}
        invariant pending <= items.Keys
        invariant |all| + |pending| == |items|
        invariant forall j :: 0 <= j < |all| ==> all[j].id in items && all[j].id !in pending && items[all[j].id] == all[j]
        invariant forall a, b :: 0 <= a < b < |all| ==> all[a].id != all[b].id
        invariant forall id :: id in items && id !in pending ==> items[id] in all
        decreases pending
      {
        SomeKey(pending);
        var k :| k in pending;
        all := all + [items[k]];
        pending := pending - {k};
      }
      if limit < |all| {
        listed := all[..limit];
      } else {
        listed := all;
      }
      err := None;
    }
  }
}
