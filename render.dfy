/**
 * The book table (`renderBooks`, `createRatingStars`, `handleSearch`,
 * `displayError`). The table body is a list of rows: one per record, or a
 * single placeholder when there is nothing to show, or a single error row.
 * Rendering is clear-then-rebuild; after a non-empty render the current
 * search highlight is applied again.
 */
module Render {
  import opened Text
  import opened Raw
  import opened Books
  import opened Filter

  datatype Glyph = FilledStar | EmptyStar

  const NoResultsMessage := "No books found in this category"

  /**
   * One `<tr>` of the table. A book row carries the record's id (its
   * `data-book-id`), its cells and whether the row has the `highlight`
   * class; the other two kinds are a single message cell.
   */
  datatype Row =
    | BookRow(bookId: string, cover: string, title: string, authors: string, year: string,
              stars: seq<Glyph>, price: JsValue, publisher: string, category: string,
              highlight: bool)
    | NoResultsRow(message: string)
    | ErrorRow(message: string)

  // ------------------------------------------------------------ stars

  /**
   * The rating cell: `rating` filled stars (none when it is negative), then
   * empty stars up to the fifth glyph.
   */
  function Stars(rating: int): (r: seq<Glyph>)
    ensures |r| == Max(rating, 0) + Max(5 - rating, 0)
    ensures forall i :: 0 <= i < |r| ==> (r[i] == FilledStar <==> i < rating)
  {
    seq(Max(rating, 0), _ => FilledStar) + seq(Max(5 - rating, 0), _ => EmptyStar)
  }

  /** `createRatingStars`: the two `for` loops. */
  method CreateRatingStars(rating: int) returns (stars: seq<Glyph>)
    ensures stars == Stars(rating)
  {
    stars := [];
    var i := 0;
    while i < rating
      invariant 0 <= i <= Max(rating, 0)
      invariant stars == seq(i, _ => FilledStar)
    {
      stars := stars + [FilledStar];
      i := i + 1;
    }
    ghost var filled := stars;
    i := rating;
    while i < 5
      invariant rating <= i <= Max(5, rating)
      invariant stars == filled + seq(i - rating, _ => EmptyStar)
    {
      stars := stars + [EmptyStar];
      i := i + 1;
    }
  }

  /** For a rating in 0..5 the cell holds exactly five glyphs, `rating` of them filled, filled first. */
  lemma StarsOfValidRating(rating: int)
    requires 0 <= rating <= 5
    ensures |Stars(rating)| == 5
    ensures forall i :: 0 <= i < rating ==> Stars(rating)[i] == FilledStar
    ensures forall i :: rating <= i < 5 ==> Stars(rating)[i] == EmptyStar
  {
  }

  // ------------------------------------------------------------- rows

  /** The row `renderBooks` builds for one record, not highlighted. */
  function RowOf(b: Book): Row {
    BookRow(b.id, b.img, b.title, b.authors, b.year, Stars(b.rating), b.price, b.publisher,
            b.category, false)
  }

  /** The rows of a render before the search pass. */
  function RenderRows(books: seq<Book>): (rows: seq<Row>) {
    if books == [] then [NoResultsRow(NoResultsMessage)]
    else seq(|books|, i requires 0 <= i < |books| => RowOf(books[i]))
  }

  /**
   * An empty list renders as exactly one placeholder row; otherwise there is
   * one book row per record, in order, tagged with the record's id and
   * showing its fields and five-glyph rating.
   */
  lemma RenderRowsSpec(books: seq<Book>)
    requires forall b :: b in books ==> WellFormed(b)
    ensures books == [] ==> RenderRows(books) == [NoResultsRow(NoResultsMessage)]
    ensures books != [] ==> |RenderRows(books)| == |books|
    ensures books != [] ==> forall i :: 0 <= i < |books| ==>
      var r := RenderRows(books)[i];
      && r.BookRow? && r.bookId == books[i].id && r.title == books[i].title
      && r.category == books[i].category && !r.highlight
      && |r.stars| == 5
      && forall k :: 0 <= k < 5 ==> (r.stars[k] == FilledStar <==> k < books[i].rating)
  {
    forall i | 0 <= i < |books| ensures |Stars(books[i].rating)| == 5 {
      assert books[i] in books;
      StarsOfValidRating(books[i].rating);
    }
  }

  // ------------------------------------------------------------ search pass

  /** A row with its highlight flag recomputed for `term`. */
  function Mark(r: Row, term: string): Row
    requires r.BookRow?
  {
    r.(highlight := Highlighted(term, r.title))
  }

  /**
   * `handleSearch` over the rows: each book row gets its flag recomputed. A
   * row of another kind has no title cell, so the callback throws there and
   * the rows from it on stay as they were. The pass never adds, removes or
   * reorders rows and changes nothing but highlight flags.
   */
  function HighlightRows(rows: seq<Row>, term: string): (r: seq<Row>)
    ensures |r| == |rows|
    ensures forall i :: 0 <= i < |rows| ==> r[i].BookRow? == rows[i].BookRow?
    ensures forall i :: 0 <= i < |rows| ==> Unmarked(r[i]) == Unmarked(rows[i])
  {
    if rows == [] then []
    else if !rows[0].BookRow? then rows
    else
      var rest := HighlightRows(rows[1..], term);
      assert forall i :: 1 <= i < |rows| ==> rows[i] == rows[1..][i - 1];
      [Mark(rows[0], term)] + rest
  }

  /** The row with its highlight flag cleared: what the search pass may not change. */
  function Unmarked(r: Row): Row {
    if r.BookRow? then r.(highlight := false) else r
  }

  /** Unfolding the pass at a book row. */
  lemma HighlightStep(rows: seq<Row>, i: nat, term: string)
    requires i < |rows| && rows[i].BookRow?
    ensures HighlightRows(rows[i..], term) == [Mark(rows[i], term)] + HighlightRows(rows[i + 1..], term)
  {
    assert rows[i..][1..] == rows[i + 1..];
  }

  /**
   * On a table of book rows, each flag becomes the match of the term against
   * the row's title.
   */
  lemma {:induction false} HighlightRowsFlags(rows: seq<Row>, term: string)
    requires forall i :: 0 <= i < |rows| ==> rows[i].BookRow?
    ensures forall i :: 0 <= i < |rows| ==> HighlightRows(rows, term)[i].highlight == Highlighted(term, rows[i].title)
  {
    if rows != [] {
      HighlightRowsFlags(rows[1..], term);
      var h := HighlightRows(rows, term);
      forall i | 1 <= i < |rows| ensures h[i] == HighlightRows(rows[1..], term)[i - 1] && rows[i] == rows[1..][i - 1] {
      }
    }
  }

  /** With a term that trims to nothing, no row is highlighted. */
  lemma EmptyTermClearsAll(rows: seq<Row>, term: string)
    requires SearchKey(term) == ""
    requires forall i :: 0 <= i < |rows| ==> rows[i].BookRow?
    ensures forall i :: 0 <= i < |rows| ==> !HighlightRows(rows, term)[i].highlight
  {
    HighlightRowsFlags(rows, term);
  }

  /** With a term no title contains, no row is highlighted and every row is still there. */
  lemma UnmatchedTermKeepsRows(rows: seq<Row>, term: string)
    requires forall i :: 0 <= i < |rows| ==> rows[i].BookRow? && !Highlighted(term, rows[i].title)
    ensures |HighlightRows(rows, term)| == |rows|
    ensures forall i :: 0 <= i < |rows| ==>
      !HighlightRows(rows, term)[i].highlight && Unmarked(HighlightRows(rows, term)[i]) == Unmarked(rows[i])
  {
    HighlightRowsFlags(rows, term);
  }

  /** What `renderBooks(books)` leaves in the table when the search box holds `term`. */
  function View(books: seq<Book>, term: string): seq<Row> {
    if books == [] then RenderRows(books) else HighlightRows(RenderRows(books), term)
  }

  /**
   * A render shows the placeholder for no records, and otherwise one row per
   * record in order, highlighted exactly when its title matches the term.
   */
  lemma ViewSpec(books: seq<Book>, term: string)
    ensures books == [] ==> View(books, term) == [NoResultsRow(NoResultsMessage)]
    ensures books != [] ==> |View(books, term)| == |books|
    ensures books != [] ==> forall i :: 0 <= i < |books| ==>
      View(books, term)[i] == RowOf(books[i]).(highlight := Highlighted(term, books[i].title))
  {
    if books != [] {
      var rows := RenderRows(books);
      HighlightRowsFlags(rows, term);
      forall i | 0 <= i < |books|
        ensures View(books, term)[i] == RowOf(books[i]).(highlight := Highlighted(term, books[i].title))
      {
        assert rows[i] == RowOf(books[i]);
      }
    }
  }

  /**
   * The state of the search pass after `i` rows: those rows are re-marked and
   * the rest are untouched.
   */
  predicate HighlightedUpTo(original: seq<Row>, rows: seq<Row>, i: nat, term: string) {
    && i <= |rows| == |original|
    && rows[i..] == original[i..]
    && HighlightRows(original, term) == rows[..i] + HighlightRows(original[i..], term)
  }

  /** Re-marking row `i`, a book row, moves the pass on by one row. */
  lemma HighlightAdvances(original: seq<Row>, rows: seq<Row>, i: nat, term: string)
    requires HighlightedUpTo(original, rows, i, term) && i < |rows| && rows[i].BookRow?
    ensures HighlightedUpTo(original, rows[i := Mark(rows[i], term)], i + 1, term)
  {
    var m := Mark(rows[i], term);
    assert original[i] == rows[i] by {
      assert original[i..][0] == rows[i..][0];
    }
    HighlightStep(original, i, term);
    UpdateSlices(rows, original, i, m);
    ConcatAssoc(rows[..i], [m], HighlightRows(original[i + 1..], term));
  }

  /** Slices around an updated position, when the suffix from it on agrees with `original`. */
  lemma UpdateSlices<T>(rows: seq<T>, original: seq<T>, i: nat, m: T)
    requires i < |rows| == |original| && rows[i..] == original[i..]
    ensures rows[i := m][..i + 1] == rows[..i] + [m]
    ensures rows[i := m][i + 1..] == original[i + 1..]
  {
    assert rows[i + 1..] == rows[i..][1..];
    assert original[i + 1..] == original[i..][1..];
  }

  /** At the end of the rows, or at a row that is not a book row, the pass is complete. */
  lemma HighlightStopsAt(original: seq<Row>, rows: seq<Row>, i: nat, term: string)
    requires HighlightedUpTo(original, rows, i, term)
    requires i == |rows| || !rows[i].BookRow?
    ensures rows == HighlightRows(original, term)
  {
    var tail := original[i..];
    if i < |rows| {
      assert tail[0] == rows[i];
    }
    assert HighlightRows(tail, term) == tail;
    assert rows[..i] + rows[i..] == rows;
  }

  // ------------------------------------------------------------ the table

  /** The `#bookList` table body. */
  class BookList {
    var rows: seq<Row>

    constructor ()
      ensures rows == []
    {
      rows := [];
    }

    /** `handleSearch`: the `forEach` that toggles each row's highlight. */
    method HandleSearch(term: string)
      modifies this
      ensures rows == HighlightRows(old(rows), term)
    {
      ghost var original := rows;
      var i := 0;
      while i < |rows|
        invariant 0 <= i <= |rows| == |original|
        invariant HighlightedUpTo(original, rows, i, term)
      {
        if !rows[i].BookRow? {
          HighlightStopsAt(original, rows, i, term);
          return;
        }
        HighlightAdvances(original, rows, i, term);
        rows := rows[i := Mark(rows[i], term)];
        i := i + 1;
      }
      HighlightStopsAt(original, rows, i, term);
    }

    /** `renderBooks`: clear the table, append one row per record or the placeholder, re-run the search. */
    method RenderBooks(books: seq<Book>, term: string)
      modifies this
      ensures rows == View(books, term)
    {
      while rows != []
        decreases |rows|
      {
        rows := rows[1..];
      }
      if books == [] {
        rows := rows + [NoResultsRow(NoResultsMessage)];
        return;
      }
      var fragment: seq<Row> := [];
      for i := 0 to |books|
        invariant |fragment| == i && forall k :: 0 <= k < i ==> fragment[k] == RowOf(books[k])
      {
        fragment := fragment + [RowOf(books[i])];
      }
      rows := rows + fragment;
      assert rows == RenderRows(books);
      HandleSearch(term);
    }

    /** `displayError`: the table holds the one error row. */
    method DisplayError(message: string)
      modifies this
      ensures rows == [ErrorRow(message)]
    {
      while rows != []
        decreases |rows|
      {
        rows := rows[1..];
      }
      rows := rows + [ErrorRow(message)];
    }
  }
}
