# Library catalog: event-sourced checkout status, in Dafny

This project models the core of a small library-catalog web application.
The application keeps a table of books and an append-only log of checkout
and checkin events per book. A book's availability is never stored: it is
derived from the log on demand, in two different ways at different call
sites:

- the history page orders the events newest first and reads the first one
  (`get_book_status`);
- every other view sorts the events oldest first with a stable sort and
  reads the last one (`is_checked_out`).

The model is functional. The database is an immutable `Catalog` value. It
holds a map from book id to `Book`, one event sequence per book, a
natural-number clock and the next ids to hand out. Each request handler is a
function from one committed catalog to the next, or to an error that commits
nothing.

Modules:

- `Schema` (schema.dfy): the `Book`, `Event` and `Catalog` records and the
  schema constraints as the predicate `Valid`. The constraints are: a unique
  barcode, a unique event id, a non-null foreign key from every event to an
  existing book, events of a book ordered by timestamp, and no orphaned logs.
- `Status` (status.dfy): both status derivations, the stable sort, and the
  lemmas that relate them to one description: the status is decided by the
  latest event.
- `Store` (store.dfy): add, delete (with cascade), checkout, checkin and the
  history page.
- `Query` (query.dfy): the search match rule and its zero / one / many
  dispatch, the counts above a listing, the checked-out page's partition, the
  author page, and the choice of sort column and direction.

Behaviours of the code worth knowing:

- The two derivations do not agree on every input. When two events share a
  timestamp, the newest-first query may return the checkin first while the
  stable sort keeps the checkout last (`Status.TiesCanDisagree`). Agreement
  is proved for distinct timestamps and any newest-first order
  (`Status.DerivationsAgree`). `Store.HistoryAgrees` proves it on ties too,
  but only under the tie order this model chooses for both queries (see
  "## Left out").
- The year comparison is attempted for queries of at most four characters,
  not only four digits: `int()` decides the rest.
- A year that `int()` accepts but that lies outside SQLite's signed 64-bit
  INTEGER range cannot be bound to the INSERT, so the commit fails and
  nothing is added (`Store.AddBook`, error `YearOutOfRange`).
- A search with no match and a non-numeric query renders the full listing
  with the error line, not an empty result.
- The barcode handed to the add form is the integer `int(query)` returned.
  The model keeps it an `int`, so a query such as `007` arrives as `7`.

## Model

| member | source | states |
|---|---|---|
| `Status.IsCheckedOut` | app.py:23-28 | An empty log is not checked out. Otherwise the result is true exactly when the event at the latest position is a checkout. The latest position has the greatest timestamp, and among equal timestamps it is the last in input order, as the stable sort leaves it. |
| `Status.GetBookStatus` | app.py:10-17 | An empty event list is "Available". |
| `Status.Insert` | app.py:27 | Inserting into an ascending list keeps it ascending and adds exactly the one element. The last element is the new one when no element is later, and otherwise the old last. |
| `Status.InsertPosition` | app.py:27 | The result is the list with the new element placed at one position: every element before it has a timestamp no greater than its own, and every element after it a strictly greater one. So it lands behind every element of equal timestamp, as a stable sort places it. |
| `Status.SortAsc` | app.py:27 | The sort by timestamp returns an ascending permutation of its input. |
| `Status.SortedLastIsLatest` | app.py:27-28 | The last element of the stable ascending sort is the input's latest event. |
| `Status.CheckedOutIgnoresOrder` | app.py:27-28 | With distinct timestamps, any reordering of the log gives the same `is_checked_out` answer. |
| `Status.DerivationsAgree` | app.py:10-28 | Take a log with distinct timestamps and any newest-first ordering of it. `get_book_status` on that ordering says "Checked Out" exactly when `is_checked_out` holds of the log, and "Available" exactly when it does not. |
| `Status.AppendDecides` | app.py:23-28 | After appending an event no older than any logged one, the book is checked out exactly when that event is a checkout. Ties go to the newcomer. |
| `Status.SortedLogLatestIsLast` | books_db.py:23-28 | On a log kept in timestamp order, the status is decided by its last element. |
| `Status.TiesCanDisagree` | app.py:10-28 | Two events with one timestamp, checkin first, form a valid newest-first list. On it `get_book_status` says "Available" while `is_checked_out` says true. |
| `Schema.Valid` | books_db.py:14-48 | The schema constraints of a committed database: each book has one event collection and none is orphaned, each book is stored under its own id, barcodes are unique, event ids are unique across the table, and every collection points at its book and is ordered by timestamp. |
| `Schema.Empty` | books_db.py:56-58 | The freshly created database holds no books and no events and satisfies every schema constraint. |
| `Store.ParseYear` | app.py:93-101 | A blank year is null. A non-blank year is stored only if `int()` accepts it; otherwise the request fails. |
| `Store.AddBook` | app.py:88-108 | A year that fails to parse aborts first. Otherwise a year outside the signed 64-bit range aborts the commit. Otherwise a barcode already in the table aborts. Otherwise exactly one new book is added under a fresh id with an empty log, its genre stored as given. No other book or log changes. |
| `Store.AddPreservesValid` | books_db.py:14-20 | A successful add keeps ids, barcode uniqueness and the log constraints. The new id was not in use, and the table grows by one. |
| `Store.DeleteBook` | app.py:116-127 | A missing id is NotFound. Otherwise the book and its log are removed and every other book and log is kept unchanged. |
| `Store.DeletePreservesValid` | books_db.py:23-28 | Deleting keeps every schema constraint, so no log is left without its book. |
| `Store.DeleteCascades` | books_db.py:23-28 | After a delete, no remaining event refers to the deleted book, and every other book keeps its whole log. |
| `Store.RecordEvent` | app.py:130-163 | A missing id is NotFound. Otherwise exactly one event of the given type, stamped with the advanced clock, is appended to that book's log only. The books table and all other logs are unchanged. |
| `Store.RecordPreservesValid` | app.py:137-143 | Recording a checkout or checkin on a committed catalog keeps every schema constraint: the new event points at its book, is stamped no earlier than any logged event, and carries an id no other event in the table has. This holds for requests serialized one after another. |
| `Store.RecordDecidesStatus` | app.py:137-143 | On a committed catalog, after an event is recorded the book is checked out exactly when that event is a checkout, whatever the earlier log. This holds for serialized requests; with `advance` zero it rests on the insertion-order tie choice. |
| `Store.AppendValid` | books_db.py:23-28 | Appending to one book's log an event for that book, with the next event id and a timestamp no earlier than the clock, keeps every schema constraint. |
| `Store.AppendIdsUnique` | books_db.py:37 | The appended event takes the next event id, so the primary key of the events table stays unique. |
| `Store.Checkout` | app.py:130-145 | Fails exactly for a missing book. On a committed catalog the book is checked out afterwards, whatever its status before. Serialized requests and the insertion-order tie choice are assumed. |
| `Store.Checkin` | app.py:148-163 | Fails exactly for a missing book. On a committed catalog the book is available afterwards, whatever its status before. Serialized requests and the insertion-order tie choice are assumed. |
| `Store.DoubleCheckoutAccepted` | app.py:130-145 | A second checkout of a checked-out book is accepted. The log grows by two checkout events. |
| `Store.CheckoutThenCheckin` | app.py:130-163 | A checkout then a checkin leaves the book available. Serialized requests and the insertion-order tie choice are assumed. |
| `Store.CheckinThenCheckout` | app.py:130-163 | A checkin then a checkout leaves the book checked out. Serialized requests and the insertion-order tie choice are assumed. |
| `Store.NewestFirst` | app.py:72-76 | The history list is the log reversed: a permutation of it, newest first. |
| `Store.BookHistory` | app.py:65-85 | A missing id is NotFound. On a committed catalog the page shows that book and its log newest first. Under the model's tie order, its status says "Checked Out" exactly when `is_checked_out` holds of the log. |
| `Store.HistoryAgrees` | app.py:72-78 | On a well-formed log the reversed log is ordered newest first, and `get_book_status` on it agrees with `is_checked_out` on the log. On ties this holds because of the chosen tie order, not because of the program. |
| `Query.Contains` | app.py:184-187 | The scan answers true exactly when the query occurs as a contiguous substring at some position. |
| `Query.IContains` | app.py:184-187 | `ILIKE '%q%'` holds exactly when the lower-cased query occurs in the lower-cased column. |
| `Query.YearQuery` | app.py:174-179 | A year is compared only when the query has at most four characters and `int()` accepts it, and then it is that integer. |
| `Query.Matches` | app.py:182-189 | A book matches when the query occurs, ignoring case, in its title, author, genre or barcode, or is a year equal to the book's. A null genre or year never matches. |
| `Query.SearchHits` | app.py:181-191 | The search selects exactly the rows matching the OR of the five conditions: substring of title, author, genre or barcode, or year equality. Each keeps its multiplicity. |
| `Query.Search` | app.py:165-221 | An absent or empty query redirects to the index. No match with a numeric query (any length) redirects to the add form with that number. No match otherwise shows the full listing with "No books found matching: q". One match redirects to a matching book. Two or more list exactly the matching books with consistent counts. |
| `Query.SearchDispatch` | app.py:197-221 | The outcome is decided by the number of hits: 0 gives the add form or the error listing, 1 gives that hit's page, 2 or more give the hits with their counts. |
| `Query.CountCheckedOut` | app.py:52 | The checked-out count is at most the number of rows and equals the number of rows whose derived status is checked out. |
| `Query.Tally` | app.py:51-53 | checked_out ≤ total, checked_out + available = total. Available equals the number of rows not checked out. |
| `Query.CheckedOutView` | app.py:236-244 | With state "checked out" or absent, the page lists exactly the checked-out rows. Any other state lists exactly the rest. |
| `Query.ViewsPartition` | app.py:238-244 | The default view equals the "checked out" view. It and any other state's view are disjoint, cover the listing, and their sizes add up to it. |
| `Query.CatalogCheckedOutView` | app.py:236-244 | Over a full table scan of the catalog, a book is listed on the page exactly when its derived status agrees with the requested state. |
| `Query.ViewListsBook` | app.py:236-244 | A book that occurs in exactly one row of the listing appears on the checked-out page exactly when that row's derived status agrees with the requested state. |
| `Query.RowsOf` | app.py:240 | The loaded listing has one row per id, each the book of that id with its own event log. |
| `Query.CatalogTotal` | app.py:47-51 | The total over a full table scan is the number of books in the catalog. |
| `Query.AuthorBooks` | app.py:223-228 | The author page lists exactly the rows whose author equals the name, ignoring case. |
| `Query.SortColumn` | app.py:33-44 | With no `sort` argument the column is title. A known name selects its column, and any other value falls back to title. |
| `Query.SortColumnRoundTrip` | app.py:36-44 | Every column is selected by its own name. |
| `Query.SortDirection` | app.py:34-45 | With no `order` argument the order is ascending. Otherwise it is ascending exactly when the argument is "asc", and descending for anything else. |
| `Query.Index` | app.py:31-53 | The index page uses title ascending by default. Its counts satisfy checked_out ≤ total and checked_out + available = total, and the checked-out count equals the size of the checked-out page. |
| `Query.YearSearchListsBoth` | app.py:174-221 | Any two books whose year is 1965, and the query "1965", give a listing of both with their counts, not a redirect. With no events logged for either, the counts are 2 total, 0 checked out, 2 available. |
| `Query.UnknownNumberExample` | app.py:182-201 | The query "9999" against a catalog holding only a book titled "Dune" by "Ann" with barcode "111" matches no field and redirects to the add form with 9999. |
| `Query.UnknownNumberGoesToAddForm` | app.py:197-201 | In any catalog, a non-empty query that `int()` accepts and that no book matches redirects to the add form with that number as barcode. |

## Left out

- HTTP routing, template rendering, `redirect`/`url_for`, `abort` and `print` are presentation. Outcomes are the `Outcome`, `HistoryPage`, `SearchOutcome` and `IndexPage` datatypes.
- Sessions, commits, the SQLite engine and `create_all` are replaced by the immutable `Catalog` value. Each request is one step or an error that changes nothing.
- Concurrency is not modelled. The application runs on a threaded server, but the model serializes requests: each event is stamped, and committed, no earlier than every event already committed. With two concurrent requests on one book, a checkout can be committed after a checkin that carries a later timestamp. `is_checked_out` then reads the checkin, and the id order of the events no longer follows their timestamps, so `Schema.Valid` does not hold of the real tables. `Store.RecordPreservesValid`, `Store.RecordDecidesStatus`, `Store.Checkout`, `Store.Checkin`, `Store.CheckoutThenCheckin` and `Store.CheckinThenCheckout` hold only under this serialization.
- Store.RecordDecidesStatus: with `advance` zero the new event ties the latest logged one. The result then rests on the insertion-order tie choice for the relationship load (see the line on tie order below). With the other load order, a checkout tied with an earlier checkin reads as available. The same holds for `Store.Checkout`, `Store.Checkin`, `Store.CheckoutThenCheckin` and `Store.CheckinThenCheckout`.
- `datetime.utcnow` is replaced by a natural-number clock. Each event is stamped `advance` ticks after the latest recorded event, so timestamps never decrease.
- Python's `int()` is the parameter `parseInt`. Its treatment of whitespace, signs, underscores and non-ASCII digits is not modelled.
- The ORDER BY of the index page is not modelled: only the choice of column and direction is. The sorted listing and NULL collation are SQL semantics.
- `ILIKE` is modelled as a literal substring test with ASCII-only case folding. The wildcards `%` and `_` inside a query are not interpreted. The author page uses the same folding for its exact-match pattern.
- The database's order among events with equal timestamps is unspecified, both for the relationship load ordered by timestamp and for the history page's newest-first query. The model fixes both: the relationship load returns insertion order, and the history page returns its reverse (`Store.NewestFirst`). The general agreement lemma `Status.DerivationsAgree` only assumes distinct timestamps.
- Store.BookHistory: its agreement with `is_checked_out` on a log with tied timestamps follows from the tie order the model fixes for both queries. The program does not guarantee it; another tie order gives the disagreement of `Status.TiesCanDisagree`.
- Store.HistoryAgrees: on ties it relies on the same chosen tie order; only its distinct-timestamp case is a guarantee of the program.
- Book ids are taken from a counter in the catalog. The exact SQLite rowid allocation is not modelled.
- Column length limits (`String(255)`, `String(100)`, `String(20)`) are not modelled; SQLite does not enforce them.
- A missing form field (Flask's 400 on `request.form[...]`) is not modelled. All five fields are parameters of `AddBook`.
- The add form's GET prefill of `barcode` is presentation and is not modelled.
- `__repr__` methods are left out.
- Status.GetBookStatus: its contract only fixes the empty case. What a non-empty answer means is stated by `Status.DerivationsAgree` and `Store.HistoryAgrees`, which relate it to the latest event.
