/**
 * Loading the catalog (`loadBooks`): every element of the JSON array becomes
 * one record, with a default for each missing or falsy field, the category
 * trimmed, the rating clamped to 0..5 and the id derived by `generateBookId`.
 * A document that is not an array, a `null` element, or a category that is a
 * number (it has no `trim`) makes the whole load fail with a format error.
 */
module Books {
  import opened Wrappers
  import opened Text
  import opened Raw
  import opened Slug

  /** A catalog record after normalisation. */
  datatype Book = Book(
    title: string, authors: string, year: string, category: string,
    rating: int, price: JsValue, publisher: string, img: string, id: string)

  /** The two failures the page reports, each with its own message. */
  datatype LoadError = FormatError | ConnectionError

  const DefaultTitle := "Untitled"
  const DefaultAuthors := "Unknown Author"
  const DefaultYear := "N/A"
  const DefaultCategory := "Uncategorized"
  const DefaultPublisher := "Unknown Publisher"
  const DefaultImg := "images/default-cover.jpg"

  /** The message `displayError` shows for each failure. */
  function ErrorMessage(e: LoadError): string {
    match e
    case FormatError => "Fail, please check file format."
    case ConnectionError => "Fail, please check connection."
  }

  function Min(a: int, b: int): int { if a <= b then a else b }

  function Max(a: int, b: int): int { if a >= b then a else b }

  /** `Math.max(0, Math.min(5, Number(v) || 0))`. */
  function ClampRating(v: JsValue): (r: int)
    ensures 0 <= r <= 5
    ensures ToNumber(v).None? ==> r == 0
    ensures ToNumber(v).Some? && 0 <= ToNumber(v).value <= 5 ==> r == ToNumber(v).value
    ensures ToNumber(v).Some? && ToNumber(v).value > 5 ==> r == 5
    ensures ToNumber(v).Some? && ToNumber(v).value < 0 ==> r == 0
  {
    var n := match ToNumber(v) case None => 0 case Some(x) => x;
    Max(0, Min(5, n))
  }

  /** A rating given as a decimal string counts the same as the number itself. */
  lemma RatingTextAsNumber(n: int)
    ensures ClampRating(Str(IntToDecimal(n))) == ClampRating(Num(n))
  {
    ParseNumberRoundTrip(n);
  }

  /**
   * `(book.category || 'Uncategorized').trim()`; None when the value is a
   * non-zero number, which has no `trim` and makes the call throw.
   */
  function CategoryOf(v: JsValue): (r: Option<string>)
    ensures r.None? <==> v.Num? && v.n != 0
    ensures r.Some? ==> IsTrimmed(r.value)
    ensures !Truthy(v) ==> r == Some(DefaultCategory)
    ensures v.Str? && v.s != "" ==> r == Some(Trim(v.s))
  {
    match v
    case Absent => Some(DefaultCategory)
    case Str(s) => if s == "" then Some(DefaultCategory) else Some(Trim(s))
    case Num(n) => if n == 0 then Some(DefaultCategory) else None
  }

  /** What every loaded record satisfies. */
  predicate WellFormed(b: Book) {
    && 0 <= b.rating <= 5
    && IsTrimmed(b.category)
    && b.title != "" && b.authors != "" && b.year != "" && b.publisher != "" && b.img != ""
    && IsSlug(b.id)
  }

  /** The object literal built for one element in the `data.map` callback. */
  function NormalizeBook(raw: RawBook): (r: Result<Book, LoadError>)
    ensures r.Err? <==> CategoryOf(raw.category).None?
    ensures r.Err? ==> r.error == FormatError
    ensures r.Ok? ==> WellFormed(r.value) && r.value.id == GenerateBookId(raw)
  {
    match CategoryOf(raw.category)
    case None => Err(FormatError)
    case Some(category) =>
      Ok(Book(
        TextOr(raw.title, DefaultTitle),
        TextOr(raw.authors, DefaultAuthors),
        TextOr(raw.year, DefaultYear),
        category,
        ClampRating(raw.rating),
        if Truthy(raw.price) then raw.price else Num(0),
        TextOr(raw.publisher, DefaultPublisher),
        TextOr(raw.img, DefaultImg),
        GenerateBookId(raw)))
  }

  /** Each falsy field takes its fixed default; each present one keeps its text. */
  lemma NormalizeDefaults(raw: RawBook)
    requires NormalizeBook(raw).Ok?
    ensures var b := NormalizeBook(raw).value;
      && (if Truthy(raw.title) then b.title == ToText(raw.title) else b.title == DefaultTitle)
      && (if Truthy(raw.authors) then b.authors == ToText(raw.authors) else b.authors == DefaultAuthors)
      && (if Truthy(raw.year) then b.year == ToText(raw.year) else b.year == DefaultYear)
      && (if Truthy(raw.category) then b.category == Trim(ToText(raw.category)) else b.category == DefaultCategory)
      && (if Truthy(raw.price) then b.price == raw.price else b.price == Num(0))
      && (if Truthy(raw.publisher) then b.publisher == ToText(raw.publisher) else b.publisher == DefaultPublisher)
      && (if Truthy(raw.img) then b.img == ToText(raw.img) else b.img == DefaultImg)
      && b.rating == ClampRating(raw.rating)
      && (!Truthy(raw.rating) ==> b.rating == 0)
  {
  }

  /** An element the callback turns into a record without throwing. */
  predicate Loadable(e: Option<RawBook>) {
    e.Some? && CategoryOf(e.value.category).Some?
  }

  /**
   * `xs.map(f)` with a callback that may throw: the results in order, or the
   * error of the first element whose callback throws.
   */
  function MapResults<T, U>(f: T -> Result<U, LoadError>, xs: seq<T>): (r: Result<seq<U>, LoadError>)
    ensures r.Ok? ==> |r.value| == |xs|
  {
    if xs == [] then Ok([])
    else match f(xs[0])
      case Err(e) => Err(e)
      case Ok(y) =>
        match MapResults(f, xs[1..])
        case Err(e) => Err(e)
        case Ok(ys) => Ok([y] + ys)
  }

  /**
   * The map succeeds exactly when every callback does, and then result `i`
   * is the callback's value on element `i`; a failed map reports the error
   * of some element.
   */
  lemma {:induction false} MapResultsSpec<T, U>(f: T -> Result<U, LoadError>, xs: seq<T>)
    ensures MapResults(f, xs).Ok? <==> forall i :: 0 <= i < |xs| ==> f(xs[i]).Ok?
    ensures MapResults(f, xs).Ok? ==> forall i :: 0 <= i < |xs| ==> f(xs[i]) == Ok(MapResults(f, xs).value[i])
    ensures MapResults(f, xs).Err? ==> exists i :: 0 <= i < |xs| && f(xs[i]) == Err(MapResults(f, xs).error)
  {
    if xs != [] && f(xs[0]).Ok? {
      var tail := xs[1..];
      MapResultsSpec(f, tail);
      assert forall i :: 0 < i < |xs| ==> xs[i] == tail[i - 1];
      if MapResults(f, tail).Ok? {
        var r := MapResults(f, xs).value;
        assert r == [f(xs[0]).value] + MapResults(f, tail).value;
        assert forall i :: 0 < i < |xs| ==> r[i] == MapResults(f, tail).value[i - 1];
      } else {
        var i :| 0 <= i < |tail| && f(tail[i]) == Err(MapResults(f, tail).error);
        assert f(xs[i + 1]) == Err(MapResults(f, xs).error);
      }
    }
  }

  /** The map over two elements whose callbacks both succeed. */
  lemma MapResultsPair<T, U>(f: T -> Result<U, LoadError>, xs: seq<T>, y0: U, y1: U)
    requires |xs| == 2 && f(xs[0]) == Ok(y0) && f(xs[1]) == Ok(y1)
    ensures MapResults(f, xs) == Ok([y0, y1])
  {
    var tail := xs[1..];
    assert tail[0] == xs[1] && tail[1..] == [];
    assert MapResults(f, tail[1..]) == Ok([]);
    assert MapResults(f, tail) == Ok([y1] + []);
    assert [y0] + ([y1] + []) == [y0, y1];
  }

  /** The `data.map` callback on one element; a `null` element makes it throw. */
  function NormalizeElement(e: Option<RawBook>): (r: Result<Book, LoadError>)
    ensures r.Ok? <==> Loadable(e)
    ensures r.Err? ==> r.error == FormatError
    ensures r.Ok? ==> e.Some? && NormalizeBook(e.value) == r
  {
    if e.None? then Err(FormatError) else NormalizeBook(e.value)
  }

  /** `data.map(...)` over the elements, failing as soon as one element throws. */
  function NormalizeAll(es: seq<Option<RawBook>>): (r: Result<seq<Book>, LoadError>)
    ensures r.Err? ==> r.error == FormatError
    ensures r.Ok? ==> |r.value| == |es|
  {
    MapResultsSpec(NormalizeElement, es);
    MapResults(NormalizeElement, es)
  }

  /**
   * The map succeeds exactly when every element can be processed, and then
   * record `i` is the normalisation of element `i`.
   */
  lemma NormalizeAllSpec(es: seq<Option<RawBook>>)
    ensures NormalizeAll(es).Ok? <==> forall i :: 0 <= i < |es| ==> Loadable(es[i])
    ensures NormalizeAll(es).Ok? ==> forall i :: 0 <= i < |es| ==>
              es[i].Some? && NormalizeBook(es[i].value) == Ok(NormalizeAll(es).value[i])
  {
    MapResultsSpec(NormalizeElement, es);
  }

  /** The success callback's processing of the parsed document. */
  function LoadBooks(doc: Document): Result<seq<Book>, LoadError> {
    match doc
    case NotAnArray => Err(FormatError)
    case JsonArray(es) => NormalizeAll(es)
  }

  /**
   * Loading keeps length and order: record `i` comes from element `i`, takes
   * its id from that raw element, and is well formed; it fails exactly when
   * the document is not an array or some element cannot be processed.
   */
  lemma LoadBooksSpec(doc: Document)
    ensures LoadBooks(doc).Ok? <==> doc.JsonArray? && forall i :: 0 <= i < |doc.elements| ==> Loadable(doc.elements[i])
    ensures LoadBooks(doc).Err? ==> LoadBooks(doc).error == FormatError
    ensures LoadBooks(doc).Ok? ==>
      var books := LoadBooks(doc).value;
      && |books| == |doc.elements|
      && forall i :: 0 <= i < |books| ==>
           && WellFormed(books[i])
           && books[i].id == GenerateBookId(doc.elements[i].value)
           && NormalizeBook(doc.elements[i].value) == Ok(books[i])
  {
    if doc.JsonArray? {
      NormalizeAllSpec(doc.elements);
    }
  }
}
