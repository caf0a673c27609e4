/**
 * The category filter (`applyCategoryFilter`) and the search match of
 * `handleSearch`. The filter picks records from the whole catalog by a
 * case-insensitive category comparison, the empty selection meaning all of
 * them; the search match decides whether one title is highlighted.
 */
module Filter {
  import opened Text
  import opened Books
  import opened Categories

  /** `a` can be obtained from `b` by deleting elements: an order-preserving sub-list. */
  predicate IsSubsequence<T(==)>(a: seq<T>, b: seq<T>)
    decreases |b|
  {
    a == [] || (b != [] && ((a[0] == b[0] && IsSubsequence(a[1..], b[1..])) || IsSubsequence(a, b[1..])))
  }

  /** `book.category.toLowerCase() === selected.toLowerCase()`. */
  predicate CategoryMatches(b: Book, selected: string) {
    Lower(b.category) == Lower(selected)
  }

  /**
   * `allBooks.filter(book => ...)`: exactly the matching records, each as
   * often as in the catalog, in catalog order.
   */
  function FilterByCategory(books: seq<Book>, selected: string): (r: seq<Book>)
    ensures forall b :: b in r ==> b in books && CategoryMatches(b, selected)
    ensures forall b :: CategoryMatches(b, selected) ==> multiset(r)[b] == multiset(books)[b]
    ensures IsSubsequence(r, books)
  {
    if books == [] then []
    else
      var rest := FilterByCategory(books[1..], selected);
      assert books == [books[0]] + books[1..];
      if CategoryMatches(books[0], selected) then
        assert ([books[0]] + rest)[1..] == rest;
        [books[0]] + rest
      else
        rest
  }

  /** The records `applyCategoryFilter` renders for a selection; `''` stands for all categories. */
  function SelectBooks(books: seq<Book>, selected: string): seq<Book> {
    if selected == "" then books else FilterByCategory(books, selected)
  }

  /**
   * The empty selection gives the catalog unchanged; any other gives an
   * order-preserving sub-list holding every record, and only the records,
   * whose category equals the selection ignoring case.
   */
  lemma SelectBooksSpec(books: seq<Book>, selected: string)
    ensures selected == "" ==> SelectBooks(books, selected) == books
    ensures IsSubsequence(SelectBooks(books, selected), books)
    ensures selected != "" ==> forall b :: b in books ==>
              (b in SelectBooks(books, selected) <==> CategoryMatches(b, selected))
  {
    if selected == "" {
      SubsequenceReflexive(books);
    } else {
      forall b | b in books && CategoryMatches(b, selected)
        ensures b in SelectBooks(books, selected)
      {
        assert multiset(books)[b] > 0;
      }
    }
  }

  lemma {:induction false} SubsequenceReflexive<T>(s: seq<T>)
    ensures IsSubsequence(s, s)
  {
    if s != [] {
      SubsequenceReflexive(s[1..]);
    }
  }

  /**
   * The "Comic" option (value `invalid-cat`) shows no record exactly when no
   * record's category is `invalid-cat` ignoring case: it is not guaranteed to
   * match nothing.
   */
  lemma SentinelMatchesNothingUnlessNamed(books: seq<Book>)
    ensures SelectBooks(books, SentinelValue) == [] <==>
            forall b :: b in books ==> Lower(b.category) != SentinelValue
  {
    SentinelLower();
    SelectBooksSpec(books, SentinelValue);
    var r := SelectBooks(books, SentinelValue);
    if r != [] {
      assert r[0] in r;
    }
  }

  lemma SentinelLower()
    ensures Lower(SentinelValue) == SentinelValue
  {
    LowerNoUpper(SentinelValue);
  }

  // ---------------------------------------------------------------- search

  /** The search term as `handleSearch` uses it: `value.trim().toLowerCase()`. */
  function SearchKey(term: string): string {
    Lower(Trim(term))
  }

  /** `searchTerm && titleText.includes(searchTerm)` for one title. */
  predicate Highlighted(term: string, title: string) {
    SearchKey(term) != "" && Contains(Lower(title), SearchKey(term))
  }

  /** A title is highlighted exactly when the key is non-empty and occurs in the lower-cased title. */
  lemma HighlightedSpec(term: string, title: string)
    ensures Highlighted(term, title) <==>
            SearchKey(term) != "" && exists i :: OccursAt(Lower(title), SearchKey(term), i)
  {
    ContainsAt(Lower(title), SearchKey(term));
  }

  /** Search ignores case and surrounding white space in the term, and case in the title. */
  lemma HighlightIgnoresCase(term: string, title: string)
    ensures Highlighted(term, title) == Highlighted(Lower(term), Lower(title))
    ensures Highlighted(term, title) == Highlighted(Trim(term), title)
  {
    LowerIdempotent(title);
    LowerIdempotent(Trim(term));
    TrimIdempotent(term);
    LowerTrimCommute(term);
  }

  /** Lower-casing changes no white space, so it commutes with trimming. */
  lemma LowerTrimCommute(s: string)
    ensures Trim(Lower(s)) == Lower(Trim(s))
  {
    var k := LeadingWhite(s);
    LowerLeadingWhite(s);
    LowerSlice(s, k, |s|);
    var t := s[k..];
    var u := Lower(s)[k..];
    assert u == Lower(t);
    var m := |t| - TrailingWhite(t);
    LowerTrailingWhite(t);
    LowerSlice(t, 0, m);
    assert Trim(Lower(s)) == u[..m];
  }

  lemma LowerCharWhite(c: char)
    ensures IsWhite(LowerChar(c)) == IsWhite(c)
  {
  }

  lemma LowerSlice(s: string, i: nat, j: nat)
    requires i <= j <= |s|
    ensures Lower(s)[i..j] == Lower(s[i..j])
  {
  }

  lemma {:induction false} LowerLeadingWhite(s: string)
    ensures LeadingWhite(Lower(s)) == LeadingWhite(s)
  {
    if s != [] {
      LowerSlice(s, 1, |s|);
      assert Lower(s)[1..] == Lower(s[1..]);
      LowerCharWhite(s[0]);
      assert Lower(s)[0] == LowerChar(s[0]);
      LowerLeadingWhite(s[1..]);
      if IsWhite(s[0]) {
        assert LeadingWhite(Lower(s)) == 1 + LeadingWhite(Lower(s)[1..]);
      } else {
        assert LeadingWhite(Lower(s)) == 0;
      }
    }
  }

  lemma {:induction false} LowerTrailingWhite(s: string)
    ensures TrailingWhite(Lower(s)) == TrailingWhite(s)
  {
    if s != [] {
      LowerSlice(s, 0, |s| - 1);
      LowerCharWhite(s[|s| - 1]);
      assert Lower(s)[|s| - 1] == LowerChar(s[|s| - 1]);
      LowerTrailingWhite(s[..|s| - 1]);
    }
  }
}
