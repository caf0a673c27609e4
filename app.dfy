/**
 * The page (`initApp` and its handlers): the catalog, the category selector,
 * the search box, the table and the cart, and what each event does to them.
 */
module App {
  import opened Wrappers
  import opened Text
  import opened Raw
  import opened Books
  import opened Categories
  import opened Filter
  import opened Render
  import opened Cart

  /** The first option of the selector, which the page itself provides. */
  const AllCategories := SelectOption("All Categories", "")

  /**
   * How the request for the catalog ended: a parsed document, or a failure
   * (a status other than 200, or a body that is not JSON).
   */
  datatype Response = Delivered(doc: Document) | Failed

  /** The table after loading as the code is written: a failed request leaves the table as it was. */
  function TableAfterLoadAsWritten(r: Response, rows: seq<Row>, term: string): seq<Row> {
    match r
    case Failed => rows
    case Delivered(doc) =>
      match LoadBooks(doc)
      case Ok(books) => View(books, term)
      case Err(e) => [ErrorRow(ErrorMessage(e))]
  }

  /** The table after loading: every failure shows the message for its cause. */
  function TableAfterLoad(r: Response, rows: seq<Row>, term: string): seq<Row> {
    match r
    case Failed => [ErrorRow(ErrorMessage(ConnectionError))]
    case Delivered(doc) => TableAfterLoadAsWritten(r, rows, term)
  }

  /**
   * As written, the page never shows the connection message: starting from
   * the empty table, no response, delivered or failed, leads to it.
   */
  lemma ConnectionMessageNeverShownAsWritten(r: Response, term: string)
    ensures TableAfterLoadAsWritten(r, [], term) != [ErrorRow(ErrorMessage(ConnectionError))]
    ensures TableAfterLoadAsWritten(Failed, [], term) == []
  {
    if r.Delivered? && LoadBooks(r.doc).Ok? {
      var books := LoadBooks(r.doc).value;
      ViewSpec(books, term);
      if books != [] {
        assert View(books, term)[0].BookRow?;
      }
    }
  }

  /**
   * Loading ends with one error row exactly when it fails, carrying the
   * connection message for a failed request and the format message for a
   * document that cannot be processed; otherwise the table is the render of
   * the loaded records.
   */
  lemma TableAfterLoadSpec(r: Response, rows: seq<Row>, term: string)
    ensures r.Failed? ==> TableAfterLoad(r, rows, term) == [ErrorRow("Fail, please check connection.")]
    ensures r.Delivered? && LoadBooks(r.doc).Err? ==>
              TableAfterLoad(r, rows, term) == [ErrorRow("Fail, please check file format.")]
    ensures r.Delivered? && LoadBooks(r.doc).Ok? ==>
              TableAfterLoad(r, rows, term) == View(LoadBooks(r.doc).value, term)
              && forall i :: 0 <= i < |TableAfterLoad(r, rows, term)| ==> !TableAfterLoad(r, rows, term)[i].ErrorRow?
  {
    if r.Delivered? && LoadBooks(r.doc).Ok? {
      var books := LoadBooks(r.doc).value;
      ViewSpec(books, term);
    }
  }

  /** The page's state. */
  class Shop {
    /** Every loaded record. */
    var allBooks: seq<Book>
    /** The options of the category selector. */
    var options: seq<SelectOption>
    /** The text in the search box. */
    var searchText: string
    const table: BookList
    const cart: ShoppingCart

    constructor ()
      ensures allBooks == [] && options == [AllCategories] && searchText == ""
      ensures table.rows == [] && fresh(table)
      ensures cart.Valid() && cart.items == [] && fresh(cart)
    {
      allBooks := [];
      options := [AllCategories];
      searchText := "";
      table := new BookList();
      cart := new ShoppingCart();
    }

    /**
     * `populateCategories`: every option but the first is removed, then one
     * option per distinct category in sorted order and the sentinel are added.
     */
    method PopulateCategories()
      requires |options| >= 1
      modifies this
      ensures options == old(options)[..1] + CategoryOptions(allBooks)
      ensures allBooks == old(allBooks) && searchText == old(searchText)
    {
      var categories := SortedCategories(allBooks);
      ClearExtraOptions();
      AddCategoryOptions(categories);
    }

    /** The `remove(1)` loop: every option but the first goes. */
    method ClearExtraOptions()
      requires |options| >= 1
      modifies this
      ensures options == old(options)[..1]
      ensures allBooks == old(allBooks) && searchText == old(searchText)
    {
      while |options| > 1
        invariant |options| >= 1 && options[0] == old(options)[0]
        invariant allBooks == old(allBooks) && searchText == old(searchText)
        decreases |options|
      {
        options := options[..1] + options[2..];
      }
      assert options == [old(options)[0]];
    }

    /** The `forEach` over the sorted categories, then the sentinel option. */
    method AddCategoryOptions(categories: seq<string>)
      modifies this
      ensures options == old(options) + OptionsFor(categories)
      ensures allBooks == old(allBooks) && searchText == old(searchText)
    {
      ghost var before := options;
      for i := 0 to |categories|
        invariant |options| == |before| + i && options[..|before|] == before
        invariant allBooks == old(allBooks) && searchText == old(searchText)
        invariant forall k :: 0 <= k < i ==> options[|before| + k] == SelectOption(categories[k], categories[k])
      {
        options := options + [SelectOption(categories[i], categories[i])];
      }
      options := options + [SelectOption(SentinelText, SentinelValue)];
      OptionsAppended(before, options, categories);
    }

    /**
     * The success callback of `loadBooks`: a document that loads replaces the
     * catalog, refills the selector and renders every record; one that does
     * not leaves catalog and selector alone and shows the format error.
     */
    method OnBooksLoaded(doc: Document)
      requires |options| >= 1
      modifies this, table
      ensures searchText == old(searchText)
      ensures table.rows == TableAfterLoad(Delivered(doc), old(table.rows), searchText)
      ensures LoadBooks(doc).Ok? ==>
                allBooks == LoadBooks(doc).value && options == old(options)[..1] + CategoryOptions(allBooks)
      ensures LoadBooks(doc).Err? ==> allBooks == old(allBooks) && options == old(options)
    {
      var loaded := LoadBooks(doc);
      if loaded.Err? {
        table.DisplayError(ErrorMessage(FormatError));
        return;
      }
      allBooks := loaded.value;
      PopulateCategories();
      table.RenderBooks(allBooks, searchText);
    }

    /** The error callback of `loadBooks` as written: it throws before showing anything. */
    method OnLoadFailureAsWritten()
      modifies this, table
      ensures table.rows == TableAfterLoadAsWritten(Failed, old(table.rows), searchText)
      ensures allBooks == old(allBooks) && options == old(options) && searchText == old(searchText)
    {
    }

    /** The error callback of `loadBooks`: the table shows the connection message. */
    method OnLoadFailure()
      modifies table
      ensures table.rows == TableAfterLoad(Failed, old(table.rows), searchText)
    {
      table.DisplayError(ErrorMessage(ConnectionError));
    }

    /** `applyCategoryFilter` for the selector's value `selected`. */
    method ApplyCategoryFilter(selected: string)
      modifies table
      ensures table.rows == View(SelectBooks(allBooks, selected), searchText)
    {
      var filtered := if selected == "" then allBooks else FilterByCategory(allBooks, selected);
      table.RenderBooks(filtered, searchText);
    }

    /** `resetFilter`: the search box is cleared and every record is shown, none highlighted. */
    method ResetFilter()
      modifies this, table
      ensures searchText == "" && allBooks == old(allBooks) && options == old(options)
      ensures table.rows == View(allBooks, "")
    {
      searchText := "";
      table.RenderBooks(allBooks, searchText);
    }

    /** Typing into the search box: the `input` handler re-marks the rows. */
    method Search(text: string)
      modifies this, table
      ensures searchText == text && allBooks == old(allBooks) && options == old(options)
      ensures table.rows == HighlightRows(old(table.rows), text)
    {
      searchText := text;
      table.HandleSearch(text);
    }

    /**
     * `handleAddToCart` with the row whose checkbox is checked, if any: the
     * cart receives that row's id, title and price.
     */
    method AddCheckedRow(checked: Option<nat>, input: Option<string>) returns (outcome: AddOutcome)
      requires checked.Some? ==> checked.value < |table.rows| && table.rows[checked.value].BookRow?
      requires cart.Valid()
      modifies cart
      ensures cart.Valid()
      ensures checked.None? ==> outcome == NoSelection
      ensures checked.Some? && ValidQuantity(input).None? ==> outcome == InvalidQuantity
      ensures outcome != Added ==> cart.items == old(cart.items)
      ensures checked.Some? && ValidQuantity(input).Some? ==>
                && outcome == Added
                && cart.items == AddTo(old(cart.items), SelectionOf(table.rows[checked.value]), ValidQuantity(input).value)
    {
      var selection := if checked.Some? then Some(SelectionOf(table.rows[checked.value])) else None;
      outcome := cart.AddItem(selection, input);
    }
  }

  /** The options held before, then one option per category and the sentinel, in that order. */
  lemma OptionsAppended(before: seq<SelectOption>, options: seq<SelectOption>, cs: seq<string>)
    requires |options| == |before| + |cs| + 1 && options[..|before|] == before
    requires forall k :: 0 <= k < |cs| ==> options[|before| + k] == SelectOption(cs[k], cs[k])
    requires options[|before| + |cs|] == SelectOption(SentinelText, SentinelValue)
    ensures options == before + OptionsFor(cs)
  {
  }

  /**
   * Checking row `i` of a render selects record `i`: the cart receives that
   * record's id, title and price, whatever the search term.
   */
  lemma SelectionOfView(books: seq<Book>, term: string, i: int)
    requires 0 <= i < |books|
    ensures i < |View(books, term)| && View(books, term)[i].BookRow?
    ensures SelectionOf(View(books, term)[i]) == Selection(books[i].id, books[i].title, books[i].price)
  {
    ViewSpec(books, term);
  }

  /** With an empty search box, a render highlights no row. */
  lemma ViewWithEmptyTerm(books: seq<Book>)
    ensures forall i :: 0 <= i < |View(books, "")| ==> View(books, "")[i].BookRow? ==> !View(books, "")[i].highlight
  {
    ViewSpec(books, "");
  }

  // ------------------------------------------------------ a worked example

  /**
   * Two records: one with a category and a rating above the scale, one with
   * only title, authors and year.
   */
  function ExampleDocument(): Document {
    JsonArray([
      Some(RawBook(Str("A"), Str("X"), Num(2000), Str("Sci-Fi"), Num(10), Num(5), Absent, Absent)),
      Some(RawBook(Str("B"), Str("Y"), Num(1999), Absent, Absent, Absent, Absent, Absent))])
  }

  lemma SciFiMatches()
    ensures Lower("Sci-Fi") == Lower("sci-fi") == "sci-fi"
    ensures Lower(DefaultCategory) != "sci-fi"
  {
    assert |Lower(DefaultCategory)| == 13;
  }

  /**
   * What the example's outcome depends on: two non-null elements, the first
   * with category "Sci-Fi" and rating 10, the second with neither.
   */
  predicate ExampleShape(doc: Document) {
    && doc.JsonArray? && |doc.elements| == 2
    && doc.elements[0].Some? && doc.elements[1].Some?
    && doc.elements[0].value.category == Str("Sci-Fi") && doc.elements[0].value.rating == Num(10)
    && doc.elements[1].value.category == Absent && doc.elements[1].value.rating == Absent
  }

  lemma ExampleDocumentShape()
    ensures ExampleShape(ExampleDocument())
  {
  }

  /** Two records, rated 5 and 0, in categories "Sci-Fi" and "Uncategorized". */
  predicate ExampleRecords(books: seq<Book>) {
    && |books| == 2
    && books[0].rating == 5 && books[1].rating == 0
    && books[0].category == "Sci-Fi" && books[1].category == DefaultCategory
  }

  /** A document of the example's shape loads into two records with the ratings and categories described below. */
  lemma ExampleLoads(doc: Document)
    requires ExampleShape(doc)
    ensures LoadBooks(doc).Ok? && ExampleRecords(LoadBooks(doc).value)
  {
    var es := doc.elements;
    SciFiTrimmed();
    ExampleFirstRecord(es[0].value, "Sci-Fi");
    ExampleSecondRecord(es[1].value);
    var b0 := NormalizeBook(es[0].value).value;
    var b1 := NormalizeBook(es[1].value).value;
    MapResultsPair(NormalizeElement, es, b0, b1);
    assert LoadBooks(doc) == Ok([b0, b1]);
  }

  /** A record with a trimmed category and rating 10 keeps the category and is clamped to 5. */
  lemma ExampleFirstRecord(raw: RawBook, c: string)
    requires raw.category == Str(c) && c != "" && IsTrimmed(c) && raw.rating == Num(10)
    ensures NormalizeBook(raw).Ok?
    ensures NormalizeBook(raw).value.rating == 5 && NormalizeBook(raw).value.category == c
  {
    TrimmedUnchanged(c);
    NormalizeDefaults(raw);
  }

  lemma SciFiTrimmed()
    ensures IsTrimmed("Sci-Fi")
  {
  }

  /** A record without category and rating gets the default category and rating 0. */
  lemma ExampleSecondRecord(raw: RawBook)
    requires raw.category == Absent && raw.rating == Absent
    ensures NormalizeBook(raw).Ok?
    ensures NormalizeBook(raw).value.rating == 0 && NormalizeBook(raw).value.category == DefaultCategory
  {
    NormalizeDefaults(raw);
  }

  /** Of a "Sci-Fi" record and an uncategorised one, selecting "sci-fi" keeps only the first. */
  lemma SciFiSelection(books: seq<Book>)
    requires |books| == 2 && books[0].category == "Sci-Fi" && books[1].category == DefaultCategory
    ensures SelectBooks(books, "sci-fi") == [books[0]]
  {
    SciFiMatches();
    assert books[1..][1..] == [];
    assert FilterByCategory(books[1..], "sci-fi") == [];
  }

  /**
   * Loading the example, or any document of its shape, gives ratings 5 and 0
   * and categories "Sci-Fi" and "Uncategorized"; selecting "sci-fi" then
   * shows exactly the first record.
   */
  lemma ExampleLoadAndFilter(doc: Document)
    requires ExampleShape(doc)
    ensures LoadBooks(doc).Ok?
    ensures var books := LoadBooks(doc).value;
      && |books| == 2
      && books[0].rating == 5 && books[1].rating == 0
      && books[0].category == "Sci-Fi" && books[1].category == "Uncategorized"
      && SelectBooks(books, "sci-fi") == [books[0]]
  {
    ExampleLoads(doc);
    SciFiSelection(LoadBooks(doc).value);
  }
}
