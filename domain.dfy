/** The entities shared by both stores: the feed and item records of the
    `rss` package as the repositories read and write them, and the error and
    option wrappers used for the Go `error` results. */
module Domain {

  datatype Option<T> = None | Some(value: T)

  /** The kinds of error the stores return. */
  datatype Error =
    | NotFound       // a lookup or update named an id that is not stored
    | StorageError   // the database or its driver refused a statement
    | QueryError     // the database rejected the text of a query

  datatype Result<T> = Ok(value: T) | Err(error: Error)

  /** The three flags a reader sets on an item. */
  datatype Flag = ReadFlag | IgnoredFlag | StarredFlag

  /** A feed as the stores see it; `link` is its natural key. */
  datatype Feed = Feed(id: int, title: string, description: string, link: string, image: string)

  /** An item of a feed; `(feedId, link)` is its natural key. Publication
      dates are instants, written here as integers. */
  datatype Item = Item(
    id: int,
    feedId: int,
    title: string,
    link: string,
    publicationDate: int,
    read: bool,
    starred: bool,
    ignored: bool)

  /** The value of one of the item's flags. */
  function FlagOf(item: Item, flag: Flag): bool
  {
    match flag
    case ReadFlag => item.read
    case IgnoredFlag => item.ignored
    case StarredFlag => item.starred
  }

  /** `item` with one flag set to `value` and everything else kept. */
  function WithFlag(item: Item, flag: Flag, value: bool): (r: Item)
    ensures FlagOf(r, flag) == value
    ensures forall other :: other != flag ==> FlagOf(r, other) == FlagOf(item, other)
    ensures r.(read := item.read, starred := item.starred, ignored := item.ignored) == item
  {
    match flag
    case ReadFlag => item.(read := value)
    case IgnoredFlag => item.(ignored := value)
    case StarredFlag => item.(starred := value)
  }

  /** Growing the prefix of an array by one element. */
  lemma Extend(a: array<Item>, i: int)
    requires 0 <= i < a.Length
    ensures a[..i + 1] == a[..i] + [a[i]]
  {
  }
}
