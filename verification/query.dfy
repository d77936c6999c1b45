/**
 The read-only views over the catalog: the search page (its match rule and
 its zero / one / many dispatch), the counts shown above a listing, the
 checked-out page's partition by derived status, the author page, and the
 choice of sort column and direction on the index page.
 */
module Query {
  import opened Schema
  import opened Status

  // ---------------------------------------------------------------------
  // Case-insensitive substring match (`column ILIKE '%query%'`)
  // ---------------------------------------------------------------------

  /** ASCII lower-casing, the folding SQLite's `lower` and `LIKE` apply. */
  function Lower(ch: char): char {
    if 'A' <= ch <= 'Z' then (ch as int + 32) as char else ch
  }

  function LowerStr(s: string): (r: string)
    ensures |r| == |s|
    ensures forall i :: 0 <= i < |s| ==> r[i] == Lower(s[i])
  {
    seq(|s|, i requires 0 <= i < |s| => Lower(s[i]))
  }

  /** `needle` occurs in `hay` starting at position `i`. */
  predicate OccursAt(hay: string, needle: string, i: int) {
    0 <= i && i + |needle| <= |hay| && hay[i..i + |needle|] == needle
  }

  /** An occurrence one position into `hay` is an occurrence in `hay[1..]`, and back. */
  lemma OccursShift(hay: string, needle: string, i: int)
    requires |hay| > 0 && i >= 0
    ensures OccursAt(hay[1..], needle, i) <==> OccursAt(hay, needle, i + 1)
  {
    if 0 <= i && i + |needle| <= |hay| - 1 {
      assert hay[1..][i..i + |needle|] == hay[i + 1..i + 1 + |needle|];
    }
  }

  /** Substring test by scanning the start positions from left to right. */
  function Contains(hay: string, needle: string): (r: bool)
    ensures r <==> exists i :: OccursAt(hay, needle, i)
    decreases |hay|
  {
    if |needle| <= |hay| && hay[..|needle|] == needle then
      assert OccursAt(hay, needle, 0);
      true
    else if |hay| == 0 then
      false
    else
      var r := Contains(hay[1..], needle);
      assert r ==> exists i :: OccursAt(hay, needle, i) by {
        if r {
          var i :| OccursAt(hay[1..], needle, i);
          OccursShift(hay, needle, i);
        }
      }
      assert (exists i :: OccursAt(hay, needle, i)) ==> r by {
        if exists i :: OccursAt(hay, needle, i) {
          var i :| OccursAt(hay, needle, i);
          assert i != 0;
          OccursShift(hay, needle, i - 1);
        }
      }
      r
  }

  /** A query whose first characters never line up with the column does not occur in it. */
  lemma NotContainedIn(column: string, q: string)
    requires |q| > 0
    requires forall i :: 0 <= i < |column| ==> Lower(column[i]) != Lower(q[0])
    ensures !IContains(column, q)
  {
    var lc, lq := LowerStr(column), LowerStr(q);
    forall i | 0 <= i && i + |q| <= |column|
      ensures !OccursAt(lc, lq, i)
    {
      assert lc[i..i + |q|][0] != lq[0];
    }
  }

  /** `column ILIKE '%q%'`, with `%` and `_` in `q` read as plain characters. */
  function IContains(column: string, q: string): (r: bool)
    ensures r <==> exists i :: OccursAt(LowerStr(column), LowerStr(q), i)
  {
    Contains(LowerStr(column), LowerStr(q))
  }

  // ---------------------------------------------------------------------
  // The search page
  // ---------------------------------------------------------------------

  /**
   The year the search compares against: only a query of at most four
   characters is handed to `int()`; a longer one, or one `int()` rejects,
   gives none.
   */
  function YearQuery(q: string, parseInt: string -> Option<int>): (r: Option<int>)
    ensures r.Some? <==> |q| <= 4 && parseInt(q).Some?
    ensures r.Some? ==> r == parseInt(q)
  {
    if |q| > 4 then None else parseInt(q)
  }

  /**
   The OR of the search's five conditions: the query occurs, ignoring case,
   in the title, the author, the genre or the barcode, or it is a year equal
   to the book's. A null genre or year never matches.
   */
  predicate Matches(b: Book, q: string, year: Option<int>) {
    || IContains(b.title, q)
    || IContains(b.author, q)
    || (b.genre.Some? && IContains(b.genre.value, q))
    || IContains(b.barcode, q)
    || (year.Some? && b.year == Some(year.value))
  }

  /** The search condition as a test on a loaded row. */
  function MatchRule(q: string, year: Option<int>): Row -> bool {
    (x: Row) => Matches(x.book, q, year)
  }

  /** The rows the search query selects, in listing order. */
  function SearchHits(rows: seq<Row>, q: string, year: Option<int>): (r: seq<Row>)
    ensures |r| <= |rows|
    ensures forall x :: x in r <==> x in rows && Matches(x.book, q, year)
    ensures forall x :: multiset(r)[x] == if Matches(x.book, q, year) then multiset(rows)[x] else 0
  {
    Filter(rows, MatchRule(q, year))
  }

  /** No row of the catalog satisfies the search condition. */
  predicate NoneMatch(rows: seq<Row>, q: string, year: Option<int>) {
    forall x :: x in rows ==> !Matches(x.book, q, year)
  }

  /** The message of a search that finds nothing and is not a number. */
  function NoMatchMessage(q: string): string {
    "No books found matching: " + q
  }

  /** What the search request answers with. */
  datatype SearchOutcome =
    | ToIndex                                     // redirect to the full listing
    | ToAddForm(barcode: int)                     // redirect to the add form, barcode prefilled
    | NoMatch(books: seq<Row>, error: string)     // full listing with an error line
    | ToHistory(bookId: nat)                      // redirect to the one matching book
    | Results(books: seq<Row>, counts: Counts)    // the matching books with their counts

  /**
   `GET /search?query=`. An absent or empty query goes back to the index.
   Otherwise the books matching the query are selected; none leads to the
   add form when the whole query is a number (no length limit here) and to
   the full listing with an error otherwise, one leads to that book's page,
   and two or more are listed with their counts.
   */
  function Search(query: Option<string>, all: seq<Row>, parseInt: string -> Option<int>): (r: SearchOutcome)
    ensures r.ToIndex? <==> query.None? || query.value == []
    ensures r.ToAddForm? <==>
              && query.Some? && query.value != []
              && NoneMatch(all, query.value, YearQuery(query.value, parseInt))
              && parseInt(query.value).Some?
    ensures r.ToAddForm? ==> Some(r.barcode) == parseInt(query.value)
    ensures r.NoMatch? <==>
              && query.Some? && query.value != []
              && NoneMatch(all, query.value, YearQuery(query.value, parseInt))
              && parseInt(query.value).None?
    ensures r.NoMatch? ==> r.books == all && r.error == NoMatchMessage(query.value)
    ensures r.ToHistory? ==>
              exists x :: x in all && Matches(x.book, query.value, YearQuery(query.value, parseInt))
                          && x.book.id == r.bookId
    ensures r.Results? ==>
              && |r.books| >= 2
              && (forall x :: x in r.books <==> x in all && Matches(x.book, query.value, YearQuery(query.value, parseInt)))
              && r.counts.total == |r.books|
              && r.counts.checkedOut + r.counts.available == r.counts.total
  {
    if query.None? || query.value == [] then ToIndex
    else
      var q := query.value;
      var year := YearQuery(q, parseInt);
      var hits := SearchHits(all, q, year);
      if |hits| == 0 then
        assert NoneMatch(all, q, year);
        match parseInt(q)
        case Some(n) => ToAddForm(n)
        case None => NoMatch(all, NoMatchMessage(q))
      else
        assert hits[0] in hits;
        if |hits| == 1 then ToHistory(hits[0].book.id)
        else Results(hits, Tally(hits))
  }

  /**
   A single search outcome per match count: exactly one hit redirects to
   that book, more hits list them all, and the outcome is a redirect to
   the add form or the error listing only when nothing matched.
   */
  lemma SearchDispatch(q: string, all: seq<Row>, parseInt: string -> Option<int>)
    requires q != []
    ensures var hits := SearchHits(all, q, YearQuery(q, parseInt));
            var r := Search(Some(q), all, parseInt);
            && (|hits| == 0 <==> r.ToAddForm? || r.NoMatch?)
            && (|hits| == 1 <==> r.ToHistory?)
            && (|hits| == 1 ==> r == ToHistory(hits[0].book.id))
            && (|hits| >= 2 <==> r.Results?)
            && (|hits| >= 2 ==> r == Results(hits, Tally(hits)))
  {
  }

  // ---------------------------------------------------------------------
  // Derived status over a listing
  // ---------------------------------------------------------------------

  /** `is_checked_out(book)` on a loaded row. */
  predicate RowCheckedOut(x: Row) {
    IsCheckedOut(x.events)
  }

  /** `not is_checked_out(book)` on a loaded row. */
  predicate RowAvailable(x: Row) {
    !IsCheckedOut(x.events)
  }

  /** The rows satisfying `p`, in their original order. */
  function Filter<T(!new)>(s: seq<T>, p: T -> bool): (r: seq<T>)
    ensures |r| <= |s|
    ensures forall x :: x in r <==> x in s && p(x)
    ensures forall x :: multiset(r)[x] == if p(x) then multiset(s)[x] else 0
    decreases |s|
  {
    if |s| == 0 then []
    else
      assert s == [s[0]] + s[1..];
      assert forall x :: x in s <==> x == s[0] || x in s[1..];
      (if p(s[0]) then [s[0]] else []) + Filter(s[1..], p)
  }

  /** Filtering by a predicate and by its negation splits the sequence. */
  lemma {:induction false} FilterComplement<T(!new)>(s: seq<T>, p: T -> bool, q: T -> bool)
    requires forall x :: x in s ==> q(x) == !p(x)
    ensures |Filter(s, p)| + |Filter(s, q)| == |s|
    decreases |s|
  {
    if |s| > 0 {
      FilterComplement(s[1..], p, q);
    }
  }

  /** The counts shown above a listing. */
  datatype Counts = Counts(total: nat, checkedOut: nat, available: int)

  /** `sum(1 for book in books if is_checked_out(book))`. */
  function CountCheckedOut(rows: seq<Row>): (n: nat)
    ensures n <= |rows|
    ensures n == |Filter(rows, RowCheckedOut)|
    decreases |rows|
  {
    if |rows| == 0 then 0
    else (if RowCheckedOut(rows[0]) then 1 else 0) + CountCheckedOut(rows[1..])
  }

  /**
   Total, checked-out and available counts: the checked-out count never
   exceeds the total, and available is exactly the number of rows not
   checked out.
   */
  function Tally(rows: seq<Row>): (t: Counts)
    ensures t.total == |rows|
    ensures t.checkedOut <= t.total
    ensures t.available >= 0
    ensures t.checkedOut + t.available == t.total
    ensures t.checkedOut == |Filter(rows, RowCheckedOut)|
    ensures t.available == |Filter(rows, RowAvailable)|
  {
    var n := CountCheckedOut(rows);
    FilterComplement(rows, RowCheckedOut, RowAvailable);
    Counts(|rows|, n, |rows| - n)
  }

  /** The `state` argument's default on the checked-out page. */
  const DefaultState: string := "checked out"

  /**
   `GET /checked-out?state=`: the books whose derived status is checked out
   when the state is "checked out" or absent, the remaining books for any
   other state.
   */
  function CheckedOutView(rows: seq<Row>, state: Option<string>): (r: seq<Row>)
    ensures |r| <= |rows|
    ensures forall x :: x in r <==> x in rows && (RowCheckedOut(x) <==> state.GetOr(DefaultState) == DefaultState)
  {
    if state.GetOr(DefaultState) == DefaultState then Filter(rows, RowCheckedOut)
    else Filter(rows, RowAvailable)
  }

  /**
   The default view and the view for any other state value are
   complementary: every row is in exactly one of them, and their sizes add
   up to the size of the listing.
   */
  lemma ViewsPartition(rows: seq<Row>, other: string)
    requires other != DefaultState
    ensures CheckedOutView(rows, None) == CheckedOutView(rows, Some(DefaultState))
    ensures forall x :: x in rows <==> x in CheckedOutView(rows, None) || x in CheckedOutView(rows, Some(other))
    ensures forall x :: !(x in CheckedOutView(rows, None) && x in CheckedOutView(rows, Some(other)))
    ensures |CheckedOutView(rows, None)| + |CheckedOutView(rows, Some(other))| == |rows|
  {
    FilterComplement(rows, RowCheckedOut, RowAvailable);
  }

  /** `ids` lists every book of the catalog exactly once, in the order the table scan returns them. */
  predicate Enumerates(c: Catalog, ids: seq<nat>) {
    && (forall k :: k in ids ==> k in c.books)
    && (forall k :: k in c.books ==> k in ids)
    && (forall i, j :: 0 <= i < j < |ids| ==> ids[i] != ids[j])
  }

  /** The loaded rows of `session.query(Book).all()`: each book with its event log. */
  function RowsOf(c: Catalog, ids: seq<nat>): (rows: seq<Row>)
    requires forall k :: k in ids ==> k in c.books && k in c.events
    ensures |rows| == |ids|
    ensures forall i :: 0 <= i < |ids| ==> rows[i] == Row(c.books[ids[i]], c.events[ids[i]])
  {
    seq(|ids|, i requires 0 <= i < |ids| => Row(c.books[ids[i]], c.events[ids[i]]))
  }

  /** The ids a listing contains. */
  ghost function IdSet(ids: seq<nat>): set<nat> {
    set k | k in ids
  }

  /** A sequence without repetitions has as many elements as its set. */
  lemma {:induction false} DistinctSize(ids: seq<nat>)
    requires forall i, j :: 0 <= i < j < |ids| ==> ids[i] != ids[j]
    ensures |IdSet(ids)| == |ids|
    decreases |ids|
  {
    if |ids| > 0 {
      var rest := IdSet(ids[1..]);
      DistinctSize(ids[1..]);
      assert ids[0] !in rest by {
        if ids[0] in rest {
          var j :| 1 <= j < |ids| && ids[j] == ids[0];
        }
      }
      assert IdSet(ids) == {ids[0]} + rest;
    }
  }

  /** Some row of `rows` is the book with id `k`. */
  predicate ListsBook(rows: seq<Row>, k: nat) {
    exists x :: x in rows && x.book.id == k
  }

  /**
   When every row of a listing that carries id `k` is the row `x0`, the
   checked-out page lists book `k` exactly when `x0`'s status agrees with
   the requested state.
   */
  lemma ViewListsBook(rows: seq<Row>, state: Option<string>, k: nat, x0: Row)
    requires x0 in rows && x0.book.id == k
    requires forall y :: y in rows && y.book.id == k ==> y == x0
    ensures ListsBook(CheckedOutView(rows, state), k)
            <==> (RowCheckedOut(x0) <==> state.GetOr(DefaultState) == DefaultState)
  {
    var view := CheckedOutView(rows, state);
    if ListsBook(view, k) {
      var x :| x in view && x.book.id == k;
      assert x == x0;
    } else {
      assert x0 !in view;
    }
  }

  /**
   On a committed catalog the checked-out page lists a book exactly when its
   derived status agrees with the requested state.
   */
  lemma CatalogCheckedOutView(c: Catalog, ids: seq<nat>, state: Option<string>, k: nat)
    requires forall k :: k in c.books ==> c.books[k].id == k
    requires c.books.Keys == c.events.Keys
    requires Enumerates(c, ids)
    requires k in c.books
    ensures ListsBook(CheckedOutView(RowsOf(c, ids), state), k)
            <==> (IsCheckedOut(c.events[k]) <==> state.GetOr(DefaultState) == DefaultState)
  {
    var rows := RowsOf(c, ids);
    var i :| 0 <= i < |ids| && ids[i] == k;
    RowOfBook(c, ids, rows, i);
    forall y | y in rows && y.book.id == k
      ensures y == rows[i]
    {
      var j :| 0 <= j < |rows| && rows[j] == y;
      RowOfBook(c, ids, rows, j);
    }
    ViewListsBook(rows, state, k, rows[i]);
  }

  /** Row `j` of the table scan is the book `ids[j]` with that book's own log. */
  lemma RowOfBook(c: Catalog, ids: seq<nat>, rows: seq<Row>, j: int)
    requires forall k :: k in c.books ==> c.books[k].id == k
    requires c.books.Keys == c.events.Keys
    requires forall k :: k in ids ==> k in c.books
    requires rows == RowsOf(c, ids)
    requires 0 <= j < |ids|
    ensures rows[j] in rows
    ensures rows[j].book.id == ids[j]
    ensures rows[j].events == c.events[ids[j]]
  {
  }

  /** The counts over the whole table count every book of the catalog once. */
  lemma CatalogTotal(c: Catalog, ids: seq<nat>)
    requires Valid(c)
    requires Enumerates(c, ids)
    ensures Tally(RowsOf(c, ids)).total == |c.books|
  {
    DistinctSize(ids);
    assert IdSet(ids) == c.books.Keys;
  }

  // ---------------------------------------------------------------------
  // The author page
  // ---------------------------------------------------------------------

  /** The author column equals `name` ignoring case (`author ILIKE name`, no wildcards). */
  predicate ByAuthor(name: string, x: Row) {
    LowerStr(x.book.author) == LowerStr(name)
  }

  /** `GET /author/<name>`: the books whose author is `name`, ignoring case. */
  function AuthorBooks(rows: seq<Row>, name: string): (r: seq<Row>)
    ensures forall x :: x in r <==> x in rows && LowerStr(x.book.author) == LowerStr(name)
  {
    Filter(rows, x => ByAuthor(name, x))
  }

  // ---------------------------------------------------------------------
  // The index page
  // ---------------------------------------------------------------------

  /** The columns the index page can sort on. */
  datatype Column = Title | Author | Year | Genre | Barcode

  datatype Direction = Asc | Desc

  /** The `sort` argument value that selects each column. */
  function ColumnName(col: Column): string {
    match col
    case Title => "title"
    case Author => "author"
    case Year => "year"
    case Genre => "genre"
    case Barcode => "barcode"
  }

  /**
   `column_map.get(sort, Book.title)` with `sort` defaulting to "title":
   a known name picks its column, anything else sorts by title.
   */
  function SortColumn(sort: Option<string>): (col: Column)
    ensures sort.None? ==> col == Title
    ensures sort.Some? && (exists k :: ColumnName(k) == sort.value) ==> ColumnName(col) == sort.value
    ensures sort.Some? && (forall k :: ColumnName(k) != sort.value) ==> col == Title
  {
    match sort.GetOr("title")
    case "author" => Author
    case "year" => Year
    case "genre" => Genre
    case "barcode" => Barcode
    case _ => Title
  }

  /** `asc if order == "asc" else desc`, with `order` defaulting to "asc". */
  function SortDirection(order: Option<string>): (d: Direction)
    ensures order.None? ==> d == Asc
    ensures order.Some? ==> (d == Asc <==> order.value == "asc")
  {
    if order.GetOr("asc") == "asc" then Asc else Desc
  }

  /** Every column is reachable from its own name, so the map loses nothing. */
  lemma {:induction false} SortColumnRoundTrip(col: Column)
    ensures SortColumn(Some(ColumnName(col))) == col
  {
    var r := SortColumn(Some(ColumnName(col)));
    assert ColumnName(r) == ColumnName(col);
    match col
    case Title =>
    case Author =>
    case Year =>
    case Genre =>
    case Barcode =>
  }

  /** What the index page shows besides the books: the ordering chosen and the counts. */
  datatype IndexPage = IndexPage(column: Column, direction: Direction, counts: Counts)

  /** `GET /?sort=&order=`: pick the ordering and count the listing. */
  function Index(rows: seq<Row>, sort: Option<string>, order: Option<string>): (p: IndexPage)
    ensures p.counts.total == |rows|
    ensures p.counts.checkedOut <= p.counts.total
    ensures p.counts.checkedOut + p.counts.available == p.counts.total
    ensures p.counts.checkedOut == |CheckedOutView(rows, None)|
    ensures sort.None? ==> p.column == Title
    ensures order.None? ==> p.direction == Asc
  {
    IndexPage(SortColumn(sort), SortDirection(order), Tally(rows))
  }

  // ---------------------------------------------------------------------
  // Worked examples
  // ---------------------------------------------------------------------

  /**
   Any two books of 1965 and the query "1965": both match by year, so both
   are listed rather than one being opened, and the counts are theirs.
   */
  lemma YearSearchListsBoth(a: Row, b: Row, parseInt: string -> Option<int>)
    requires parseInt("1965") == Some(1965)
    requires a.book.year == Some(1965) && b.book.year == Some(1965)
    ensures Search(Some("1965"), [a, b], parseInt) == Results([a, b], Tally([a, b]))
    ensures a.events == [] && b.events == [] ==>
              Search(Some("1965"), [a, b], parseInt) == Results([a, b], Counts(2, 0, 2))
  {
    BothMatchByYear(a, b);
    SearchDispatch("1965", [a, b], parseInt);
    if a.events == [] && b.events == [] {
      NoLoansCounted(a, b);
    }
  }

  /** Two books of the searched year are both hits. */
  lemma BothMatchByYear(a: Row, b: Row)
    requires a.book.year == Some(1965) && b.book.year == Some(1965)
    ensures SearchHits([a, b], "1965", Some(1965)) == [a, b]
  {
    var p := MatchRule("1965", Some(1965));
    assert p(a) && p(b);
    assert [a, b][1..] == [b] && [b][1..] == [];
    assert Filter([b], p) == [b];
  }

  /** Two books without events: none checked out, both available. */
  lemma NoLoansCounted(a: Row, b: Row)
    requires a.events == [] && b.events == []
    ensures Tally([a, b]) == Counts(2, 0, 2)
  {
    assert [a, b][1..] == [b] && [b][1..] == [];
    assert CountCheckedOut([b]) == 0;
  }

  /**
   A number that no book matches, in any catalog: the search sends the user
   to the add form with that number as the barcode.
   */
  lemma UnknownNumberGoesToAddForm(q: string, all: seq<Row>, parseInt: string -> Option<int>, n: int)
    requires q != []
    requires NoneMatch(all, q, YearQuery(q, parseInt))
    requires parseInt(q) == Some(n)
    ensures Search(Some(q), all, parseInt) == ToAddForm(n)
  {
  }

  /**
   An instance: "9999" against a catalog holding only "Dune" (barcode
   "111", 1965) matches no field, so it goes to the add form.
   */
  lemma UnknownNumberExample(parseInt: string -> Option<int>)
    requires parseInt("9999") == Some(9999)
    ensures var dune := Row(Book(1, "Dune", "Ann", Some(1965), None, "111"), []);
            Search(Some("9999"), [dune], parseInt) == ToAddForm(9999)
  {
    var dune := Row(Book(1, "Dune", "Ann", Some(1965), None, "111"), []);
    NotContainedIn(dune.book.title, "9999");
    NotContainedIn(dune.book.author, "9999");
    NotContainedIn(dune.book.barcode, "9999");
    assert !Matches(dune.book, "9999", Some(9999));
    UnknownNumberGoesToAddForm("9999", [dune], parseInt, 9999);
  }
}
