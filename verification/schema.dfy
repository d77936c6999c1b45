/**
 Records of the library catalog (books and their checkout events) and the
 constraints the relational schema places on them: required and optional
 columns, the unique barcode, the non-null foreign key from an event to its
 book, and the ascending-by-timestamp order of a book's event collection.
 */
module Schema {

  /** A nullable column or an absent request argument. */
  datatype Option<+T> = None | Some(value: T) {

    /** The value, or `default` when absent (Python's `dict.get(key, default)`). */
    function GetOr(default: T): T {
      match this
      case Some(v) => v
      case None => default
    }
  }

  /** The two values the application ever writes to `event_type`. */
  datatype EventType = Checkout | Checkin

  /**
   One row of `checkout_events`. The book reference is a plain id (never
   null); `timestamp` is a tick of an abstract, non-decreasing clock that
   stands for the creation time.
   */
  datatype Event = Event(id: nat, bookId: nat, kind: EventType, timestamp: nat)

  /**
   One row of `books`. Title, author and barcode are non-null strings; year
   and genre are nullable.
   */
  datatype Book = Book(
    id: nat,
    title: string,
    author: string,
    year: Option<int>,
    genre: Option<string>,
    barcode: string)

  /** A book as the ORM hands it to a view: the row with its loaded `checkout_events`. */
  datatype Row = Row(book: Book, events: seq<Event>)

  /**
   The whole persistent state: the books table keyed by id, each book's event
   collection in insertion order, the clock, and the next ids to hand out.
   */
  datatype Catalog = Catalog(
    books: map<nat, Book>,
    events: map<nat, seq<Event>>,
    clock: nat,
    nextBookId: nat,
    nextEventId: nat)

  /** Non-decreasing timestamps: the order of a book's `checkout_events`. */
  predicate SortedAsc(s: seq<Event>) {
    forall i, j :: 0 <= i < j < |s| ==> s[i].timestamp <= s[j].timestamp
  }

  /** Non-increasing timestamps: the order of the history page's query. */
  predicate SortedDesc(s: seq<Event>) {
    forall i, j :: 0 <= i < j < |s| ==> s[i].timestamp >= s[j].timestamp
  }

  /** No two positions of `s` carry the same timestamp. */
  predicate DistinctTimestamps(s: seq<Event>) {
    forall i, j :: 0 <= i < |s| && 0 <= j < |s| && i != j ==> s[i].timestamp != s[j].timestamp
  }

  /** The unique constraint on `barcode_number`. */
  predicate UniqueBarcodes(books: map<nat, Book>) {
    forall i, j :: i in books && j in books && i != j ==> books[i].barcode != books[j].barcode
  }

  /** Some book of the table already carries `barcode`. */
  predicate BarcodeTaken(books: map<nat, Book>, barcode: string) {
    exists id :: id in books && books[id].barcode == barcode
  }

  /**
   The event collection of book `id`: every event points at that book, was
   created no later than `clock`, has an id below `nextEventId`, and the
   collection is ordered by timestamp, ties in insertion (id) order.
   */
  predicate WellFormedLog(log: seq<Event>, id: nat, clock: nat, nextEventId: nat) {
    && SortedAsc(log)
    && (forall i :: 0 <= i < |log| ==>
          log[i].bookId == id && log[i].timestamp <= clock && log[i].id < nextEventId)
    && (forall i, j :: 0 <= i < j < |log| ==> log[i].id < log[j].id)
  }

  /**
   The primary key of `checkout_events` across the whole table: events in
   the logs of two different books never share an id. (Within one log the
   ids increase, see `WellFormedLog`.)
   */
  predicate EventIdsUnique(events: map<nat, seq<Event>>) {
    forall a, b, i, j ::
      a in events && b in events && a != b && 0 <= i < |events[a]| && 0 <= j < |events[b]|
      ==> events[a][i].id != events[b][j].id
  }

  /**
   The constraints every committed state satisfies: each book has exactly
   one event collection and no collection is orphaned, a book is stored
   under its own id, barcodes are unique, event ids are unique, and every
   collection is well formed.
   */
  ghost predicate Valid(c: Catalog) {
    && c.books.Keys == c.events.Keys
    && (forall id :: id in c.books ==> c.books[id].id == id && id < c.nextBookId)
    && UniqueBarcodes(c.books)
    && EventIdsUnique(c.events)
    && (forall id :: id in c.events ==> WellFormedLog(c.events[id], id, c.clock, c.nextEventId))
  }

  /** The event log of book `id`; empty for an id the catalog does not hold. */
  function LogOf(c: Catalog, id: nat): (log: seq<Event>)
    ensures id in c.events ==> log == c.events[id]
    ensures id !in c.events ==> log == []
  {
    if id in c.events then c.events[id] else []
  }

  /** The freshly created database: no books, no events, ids starting at 1. */
  function Empty(): (c: Catalog)
    ensures Valid(c)
    ensures |c.books| == 0 && |c.events| == 0
  {
    Catalog(map[], map[], 0, 1, 1)
  }
}
