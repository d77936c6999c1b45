/**
 The state effects of the request handlers that write or read one book:
 adding a book, deleting it (its events go with it), recording a checkout or
 a checkin, and the history page. Each handler is one atomic step from one
 committed catalog to the next, or an error that commits nothing.
 */
module Store {
  import opened Schema
  import opened Status

  /**
   Why a request is refused: a 404, a failing `int()` on the year, a year
   the database driver cannot bind to a 64-bit INTEGER, the barcode unique
   constraint.
   */
  datatype Error = NotFound | InvalidYear | YearOutOfRange | DuplicateBarcode

  /** The committed result of a request, or the error that aborted it. */
  datatype Outcome<+T> = Ok(value: T) | Err(error: Error)

  /** What the history page shows: the book, its events newest first, and the derived status. */
  datatype HistoryPage = HistoryPage(book: Book, events: seq<Event>, status: Availability)

  /**
   The year field of the add form: blank means no year, anything else must
   be accepted by `int()` (the parameter `parseInt`) or the request fails.
   */
  function ParseYear(text: string, parseInt: string -> Option<int>): (r: Outcome<Option<int>>)
    ensures r.Err? ==> r.error == InvalidYear
    ensures r.Err? <==> text != [] && parseInt(text).None?
    ensures r.Ok? && r.value.Some? ==> text != [] && parseInt(text) == r.value
    ensures r.Ok? && r.value.None? ==> text == []
  {
    if text == [] then Ok(None)
    else
      match parseInt(text)
      case Some(y) => Ok(Some(y))
      case None => Err(InvalidYear)
  }

  /** The range of SQLite's INTEGER storage class: a signed 64-bit integer. */
  const IntegerMin: int := -0x8000_0000_0000_0000
  const IntegerMax: int := 0x7FFF_FFFF_FFFF_FFFF

  /** A year the driver can bind to the `Integer` column: null or within 64 bits. */
  predicate Storable(year: Option<int>) {
    year.None? || IntegerMin <= year.value <= IntegerMax
  }

  /**
   `POST /add`: store a new book under a fresh id with an empty event log.
   The year is converted before anything is written. At the commit, a year
   outside 64 bits cannot be bound to the INSERT, and a barcode already in
   the table violates the unique constraint; either aborts the request.
   */
  function AddBook(c: Catalog, title: string, author: string, yearText: string, genre: string,
                   barcode: string, parseInt: string -> Option<int>): (r: Outcome<Catalog>)
    ensures r == Err(InvalidYear) <==> ParseYear(yearText, parseInt).Err?
    ensures r == Err(YearOutOfRange) <==>
              ParseYear(yearText, parseInt).Ok? && !Storable(ParseYear(yearText, parseInt).value)
    ensures r == Err(DuplicateBarcode) <==>
              && ParseYear(yearText, parseInt).Ok? && Storable(ParseYear(yearText, parseInt).value)
              && BarcodeTaken(c.books, barcode)
    ensures r.Err? ==> r.error != NotFound
    ensures r.Ok? ==>
              var id := c.nextBookId;
              && r.value.books == c.books[id := Book(id, title, author, ParseYear(yearText, parseInt).value,
                                                     Some(genre), barcode)]
              && r.value.events == c.events[id := []]
              && r.value.clock == c.clock
              && r.value.nextBookId == id + 1
              && r.value.nextEventId == c.nextEventId
  {
    match ParseYear(yearText, parseInt)
    case Err(e) => Err(e)
    case Ok(year) =>
      if !Storable(year) then Err(YearOutOfRange)
      else if BarcodeTaken(c.books, barcode) then Err(DuplicateBarcode)
      else
        var id := c.nextBookId;
        var book := Book(id, title, author, year, Some(genre), barcode);
        Ok(c.(books := c.books[id := book], events := c.events[id := []], nextBookId := id + 1))
  }

  /** `POST /delete/<id>`: remove the book; the cascade removes its event log. */
  function DeleteBook(c: Catalog, id: nat): (r: Outcome<Catalog>)
    ensures r.Err? <==> id !in c.books
    ensures r.Err? ==> r.error == NotFound
    ensures r.Ok? ==>
              && r.value.books.Keys == c.books.Keys - {id}
              && r.value.events.Keys == c.events.Keys - {id}
              && (forall k :: k in r.value.books ==> r.value.books[k] == c.books[k])
              && (forall k :: k in r.value.events ==> r.value.events[k] == c.events[k])
  {
    if id !in c.books then Err(NotFound)
    else Ok(c.(books := c.books - {id}, events := c.events - {id}))
  }

  /**
   One event of type `kind` for book `id`, stamped `advance` ticks after the
   catalog's clock (the latest recorded event), so the clock never goes
   back. A missing book is a 404 and nothing is written. No check is made
   against the book's current status.
   */
  function RecordEvent(c: Catalog, id: nat, kind: EventType, advance: nat): (r: Outcome<Catalog>)
    ensures r.Err? <==> id !in c.books
    ensures r.Err? ==> r.error == NotFound
    ensures r.Ok? ==>
              && r.value.events.Keys == c.events.Keys + {id}
              && r.value.events[id] == LogOf(c, id) + [Event(c.nextEventId, id, kind, c.clock + advance)]
    ensures r.Ok? ==>
              && r.value.books == c.books
              && r.value.clock >= c.clock
              && (forall k :: k in c.events && k != id ==> k in r.value.events && r.value.events[k] == c.events[k])
  {
    if id !in c.books then Err(NotFound)
    else
      Ok(Append(c, id, Event(c.nextEventId, id, kind, c.clock + advance)))
  }

  /** The catalog after `e` is committed to the log of `id`; the clock moves to `e`'s timestamp. */
  function Append(c: Catalog, id: nat, e: Event): Catalog {
    c.(events := c.events[id := LogOf(c, id) + [e]], clock := e.timestamp, nextEventId := c.nextEventId + 1)
  }

  /** `POST /checkout/<id>`: afterwards the book is checked out, whatever it was before. */
  function Checkout(c: Catalog, id: nat, advance: nat): (r: Outcome<Catalog>)
    ensures r.Err? <==> id !in c.books
    ensures r.Ok? && Valid(c) ==> Valid(r.value) && id in r.value.events && IsCheckedOut(r.value.events[id])
  {
    var r := RecordEvent(c, id, EventType.Checkout, advance);
    assert r.Ok? && Valid(c) ==> Valid(r.value) && id in r.value.events && IsCheckedOut(r.value.events[id]) by {
      if Valid(c) {
        RecordPreservesValid(c, id, EventType.Checkout, advance);
        RecordDecidesStatus(c, id, EventType.Checkout, advance);
      }
    }
    r
  }

  /** `POST /checkin/<id>`: afterwards the book is available, whatever it was before. */
  function Checkin(c: Catalog, id: nat, advance: nat): (r: Outcome<Catalog>)
    ensures r.Err? <==> id !in c.books
    ensures r.Ok? && Valid(c) ==> Valid(r.value) && id in r.value.events && !IsCheckedOut(r.value.events[id])
  {
    var r := RecordEvent(c, id, EventType.Checkin, advance);
    assert r.Ok? && Valid(c) ==> Valid(r.value) && id in r.value.events && !IsCheckedOut(r.value.events[id]) by {
      if Valid(c) {
        RecordPreservesValid(c, id, EventType.Checkin, advance);
        RecordDecidesStatus(c, id, EventType.Checkin, advance);
      }
    }
    r
  }

  /** The events newest first, ties in reverse insertion order. */
  function NewestFirst(log: seq<Event>): (r: seq<Event>)
    ensures |r| == |log|
    ensures multiset(r) == multiset(log)
    ensures forall i :: 0 <= i < |log| ==> r[i] == log[|log| - 1 - i]
    decreases |log|
  {
    if |log| == 0 then []
    else
      assert log == log[..|log| - 1] + [log[|log| - 1]];
      [log[|log| - 1]] + NewestFirst(log[..|log| - 1])
  }

  /**
   `GET /book/<id>`: a 404 for a missing book, otherwise the book, its log
   newest first and the status `get_book_status` derives from that list.
   */
  function BookHistory(c: Catalog, id: nat): (r: Outcome<HistoryPage>)
    ensures r.Err? <==> id !in c.books
    ensures r.Err? ==> r.error == NotFound
    ensures r.Ok? && Valid(c) ==>
              && r.value.book == c.books[id]
              && r.value.book.id == id
              && SortedDesc(r.value.events)
              && multiset(r.value.events) == multiset(c.events[id])
              && (r.value.status == CheckedOut <==> IsCheckedOut(c.events[id]))
  {
    if id !in c.books then Err(NotFound)
    else
      var log := LogOf(c, id);
      var events := NewestFirst(log);
      var page := HistoryPage(c.books[id], events, GetBookStatus(events));
      assert Valid(c) ==> SortedDesc(events) && (page.status == CheckedOut <==> IsCheckedOut(log)) by {
        if Valid(c) {
          HistoryAgrees(log, id, c.clock, c.nextEventId);
        }
      }
      Ok(page)
  }

  /**
   On a well-formed log the history page and the list views derive the same
   status. Distinct timestamps make this a property of the program; on ties
   it holds only because the model reads the page in exactly the reverse of
   the order it gives the relationship load, which the database leaves open.
   */
  lemma HistoryAgrees(log: seq<Event>, id: nat, clock: nat, nextEventId: nat)
    requires WellFormedLog(log, id, clock, nextEventId)
    ensures SortedDesc(NewestFirst(log))
    ensures GetBookStatus(NewestFirst(log)) == CheckedOut <==> IsCheckedOut(log)
  {
    var d := NewestFirst(log);
    forall i, j | 0 <= i < j < |d|
      ensures d[i].timestamp >= d[j].timestamp
    {
      assert d[i] == log[|log| - 1 - i] && d[j] == log[|log| - 1 - j];
    }
    if |log| > 0 {
      SortedLogLatestIsLast(log);
    }
  }

  /** Adding a book keeps every schema constraint. */
  lemma AddPreservesValid(c: Catalog, title: string, author: string, yearText: string, genre: string,
                          barcode: string, parseInt: string -> Option<int>)
    requires Valid(c)
    ensures var r := AddBook(c, title, author, yearText, genre, barcode, parseInt);
            r.Ok? ==> Valid(r.value) && c.nextBookId !in c.books && |r.value.books| == |c.books| + 1
  {
    var r := AddBook(c, title, author, yearText, genre, barcode, parseInt);
    if r.Ok? {
      var book := Book(c.nextBookId, title, author, ParseYear(yearText, parseInt).value, Some(genre), barcode);
      assert r.value == c.(books := c.books[book.id := book], events := c.events[book.id := []],
                           nextBookId := book.id + 1);
      NewBookValid(c, book);
    }
  }

  /** A book under the next id with an unused barcode and an empty log can be added to a committed catalog. */
  lemma NewBookValid(c: Catalog, book: Book)
    requires Valid(c)
    requires book.id == c.nextBookId
    requires !BarcodeTaken(c.books, book.barcode)
    ensures book.id !in c.books
    ensures Valid(c.(books := c.books[book.id := book], events := c.events[book.id := []],
                     nextBookId := book.id + 1))
  {
    BarcodesAfterAdd(c.books, book);
    NewBookLogs(c, book.id);
  }

  /** Giving a new id an empty log keeps every log well formed. */
  lemma NewBookLogs(c: Catalog, id: nat)
    requires Valid(c)
    ensures var events := c.events[id := []];
            forall k :: k in events ==> WellFormedLog(events[k], k, c.clock, c.nextEventId)
  {
    var events := c.events[id := []];
    forall k | k in events
      ensures WellFormedLog(events[k], k, c.clock, c.nextEventId)
    {
      if k != id {
        assert events[k] == c.events[k];
      }
    }
  }

  /** Adding a book with an unused barcode under an unused id keeps barcodes unique. */
  lemma BarcodesAfterAdd(books: map<nat, Book>, book: Book)
    requires UniqueBarcodes(books)
    requires book.id !in books
    requires !BarcodeTaken(books, book.barcode)
    ensures UniqueBarcodes(books[book.id := book])
  {
    var m := books[book.id := book];
    forall i, j | i in m && j in m && i != j
      ensures m[i].barcode != m[j].barcode
    {
      if i == book.id {
        assert m[j] == books[j];
      } else if j == book.id {
        assert m[i] == books[i];
      }
    }
  }

  /** Deleting a book keeps every schema constraint: no event is left without its book. */
  lemma DeletePreservesValid(c: Catalog, id: nat)
    requires Valid(c)
    ensures DeleteBook(c, id).Ok? ==> Valid(DeleteBook(c, id).value)
  {
  }

  /**
   After a delete no remaining event refers to the deleted book, and every
   other book keeps its whole log.
   */
  lemma {:induction false} DeleteCascades(c: Catalog, id: nat)
    requires Valid(c)
    requires id in c.books
    ensures var c' := DeleteBook(c, id).value;
            && id !in c'.events
            && (forall k, i :: k in c'.events && 0 <= i < |c'.events[k]| ==> c'.events[k][i].bookId != id)
            && (forall k :: k in c.events && k != id ==> k in c'.events && c'.events[k] == c.events[k])
  {
    var c' := DeleteBook(c, id).value;
    forall k, i | k in c'.events && 0 <= i < |c'.events[k]|
      ensures c'.events[k][i].bookId != id
    {
      assert WellFormedLog(c.events[k], k, c.clock, c.nextEventId);
    }
  }

  /** Recording an event keeps every schema constraint. */
  lemma RecordPreservesValid(c: Catalog, id: nat, kind: EventType, advance: nat)
    requires Valid(c)
    ensures var r := RecordEvent(c, id, kind, advance);
            r.Ok? ==> Valid(r.value)
  {
    if id in c.books {
      var e := Event(c.nextEventId, id, kind, c.clock + advance);
      assert RecordEvent(c, id, kind, advance) == Ok(Append(c, id, e));
      AppendValid(c, id, e);
    }
  }

  /**
   On a committed catalog the recorded event decides the status: the book is
   checked out afterwards exactly when the event is a checkout.
   */
  lemma RecordDecidesStatus(c: Catalog, id: nat, kind: EventType, advance: nat)
    requires Valid(c)
    ensures var r := RecordEvent(c, id, kind, advance);
            r.Ok? ==> id in r.value.events && (IsCheckedOut(r.value.events[id]) <==> kind == EventType.Checkout)
  {
    if id in c.books {
      var e := Event(c.nextEventId, id, kind, c.clock + advance);
      assert RecordEvent(c, id, kind, advance) == Ok(Append(c, id, e));
      assert Append(c, id, e).events[id] == c.events[id] + [e];
      AppendedLogWellFormed(c.events[id], e, id, c.clock, c.nextEventId);
      AppendDecides(c.events[id], e);
    }
  }

  /** The catalog with `e` appended to the log of `id` satisfies the schema constraints. */
  lemma AppendValid(c: Catalog, id: nat, e: Event)
    requires Valid(c)
    requires id in c.books
    requires e.bookId == id && e.id == c.nextEventId && e.timestamp >= c.clock
    ensures Valid(Append(c, id, e))
  {
    AppendLogs(c, id, e);
    AppendIdsUnique(c, id, e);
  }

  /** The new event's id is above every logged one, so event ids stay unique. */
  lemma AppendIdsUnique(c: Catalog, id: nat, e: Event)
    requires Valid(c)
    requires id in c.books
    requires e.id == c.nextEventId
    ensures EventIdsUnique(Append(c, id, e).events)
  {
    forall a, i | a in c.events && 0 <= i < |c.events[a]|
      ensures c.events[a][i].id < c.nextEventId
    {
      assert WellFormedLog(c.events[a], a, c.clock, c.nextEventId);
    }
    FreshIdKeepsUnique(c.events, id, e, c.nextEventId);
  }

  /** Appending an event whose id is above every id in the table keeps event ids unique. */
  lemma FreshIdKeepsUnique(m: map<nat, seq<Event>>, id: nat, e: Event, next: nat)
    requires EventIdsUnique(m)
    requires id in m
    requires forall a, i :: a in m && 0 <= i < |m[a]| ==> m[a][i].id < next
    requires e.id == next
    ensures EventIdsUnique(m[id := m[id] + [e]])
  {
    var m': map<nat, seq<Event>> := m[id := m[id] + [e]];
    forall a: nat, b: nat, i: int, j: int | a in m' && b in m' && a != b && 0 <= i < |m'[a]| && 0 <= j < |m'[b]|
      ensures m'[a][i].id != m'[b][j].id
    {
      if a == id && i == |m[id]| {
        assert m'[b][j] == m[b][j];
      } else if b == id && j == |m[id]| {
        assert m'[a][i] == m[a][i];
      } else {
        assert m'[a][i] == m[a][i] && m'[b][j] == m[b][j];
      }
    }
  }

  /** After the append every log is well formed under the new clock and id counter. */
  lemma AppendLogs(c: Catalog, id: nat, e: Event)
    requires Valid(c)
    requires id in c.books
    requires e.bookId == id && e.id == c.nextEventId && e.timestamp >= c.clock
    ensures var c' := Append(c, id, e);
            forall k :: k in c'.events ==> WellFormedLog(c'.events[k], k, c'.clock, c'.nextEventId)
  {
    var c' := Append(c, id, e);
    forall k | k in c'.events
      ensures WellFormedLog(c'.events[k], k, c'.clock, c'.nextEventId)
    {
      if k == id {
        AppendedLogWellFormed(c.events[id], e, id, c.clock, c.nextEventId);
      } else {
        LogWeakens(c.events[k], k, c.clock, c.nextEventId, c'.clock, c'.nextEventId);
      }
    }
  }

  /** A well-formed log stays well formed once an event newer than every logged one is appended. */
  lemma AppendedLogWellFormed(log: seq<Event>, e: Event, id: nat, clock: nat, nextEventId: nat)
    requires WellFormedLog(log, id, clock, nextEventId)
    requires e.bookId == id && e.id == nextEventId && e.timestamp >= clock
    ensures forall x :: x in log ==> x.timestamp <= e.timestamp
    ensures WellFormedLog(log + [e], id, e.timestamp, nextEventId + 1)
  {
    AppendKeepsSorted(log, e);
    var t := log + [e];
    forall i, j | 0 <= i < j < |t|
      ensures t[i].id < t[j].id
    {
      if j == |log| {
        assert t[i] == log[i];
      }
    }
  }

  /** A log well formed for one clock and id counter stays so for later ones. */
  lemma LogWeakens(log: seq<Event>, id: nat, clock: nat, nextEventId: nat, clock': nat, nextEventId': nat)
    requires WellFormedLog(log, id, clock, nextEventId)
    requires clock <= clock' && nextEventId <= nextEventId'
    ensures WellFormedLog(log, id, clock', nextEventId')
  {
  }

  /** A checkout followed by a checkin leaves the book available. */
  lemma CheckoutThenCheckin(c: Catalog, id: nat, a1: nat, a2: nat)
    requires Valid(c)
    requires id in c.books
    ensures Checkout(c, id, a1).Ok?
    ensures Checkin(Checkout(c, id, a1).value, id, a2).Ok?
    ensures !IsCheckedOut(Checkin(Checkout(c, id, a1).value, id, a2).value.events[id])
  {
  }

  /** A checkin followed by a checkout leaves the book checked out. */
  lemma CheckinThenCheckout(c: Catalog, id: nat, a1: nat, a2: nat)
    requires Valid(c)
    requires id in c.books
    ensures Checkin(c, id, a1).Ok?
    ensures Checkout(Checkin(c, id, a1).value, id, a2).Ok?
    ensures IsCheckedOut(Checkout(Checkin(c, id, a1).value, id, a2).value.events[id])
  {
  }

  /**
   A second checkout of a book already checked out is accepted and logged:
   the log grows by two checkout events.
   */
  lemma DoubleCheckoutAccepted(c: Catalog, id: nat, a1: nat, a2: nat)
    requires Valid(c)
    requires id in c.books
    ensures Checkout(c, id, a1).Ok?
    ensures IsCheckedOut(Checkout(c, id, a1).value.events[id])
    ensures Checkout(Checkout(c, id, a1).value, id, a2).Ok?
    ensures var log := Checkout(Checkout(c, id, a1).value, id, a2).value.events[id];
            && |log| == |c.events[id]| + 2
            && log[|log| - 1].kind == EventType.Checkout
            && log[|log| - 2].kind == EventType.Checkout
  {
  }
}
