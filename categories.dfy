/**
 * The category drop-down (`populateCategories`): the distinct categories of
 * the catalog, in the order `Array.prototype.sort` gives strings, each as an
 * option whose text and value are the category, followed by one extra option
 * shown as "Comic" whose value `invalid-cat` is meant to match nothing.
 */
module Categories {
  import opened Books

  // ------------------------------------------------------ string order

  /**
   * `a <= b` in the default order of `Array.prototype.sort`: compare code
   * point by code point, a proper prefix coming first.
   */
  predicate LexLe(a: string, b: string)
    decreases |a|
  {
    |a| == 0 || (|b| > 0 && (a[0] < b[0] || (a[0] == b[0] && LexLe(a[1..], b[1..]))))
  }

  lemma {:induction false} LexLeReflexive(a: string)
    ensures LexLe(a, a)
  {
    if |a| > 0 {
      LexLeReflexive(a[1..]);
    }
  }

  lemma {:induction false} LexLeTotal(a: string, b: string)
    ensures LexLe(a, b) || LexLe(b, a)
  {
    if |a| > 0 && |b| > 0 && a[0] == b[0] {
      LexLeTotal(a[1..], b[1..]);
    }
  }

  lemma {:induction false} LexLeAntisymmetric(a: string, b: string)
    requires LexLe(a, b) && LexLe(b, a)
    ensures a == b
  {
    if |a| > 0 && |b| > 0 {
      LexLeAntisymmetric(a[1..], b[1..]);
      assert a == [a[0]] + a[1..] && b == [b[0]] + b[1..];
    }
  }

  lemma {:induction false} LexLeTransitive(a: string, b: string, c: string)
    requires LexLe(a, b) && LexLe(b, c)
    ensures LexLe(a, c)
  {
    if |a| > 0 && a[0] == b[0] && b[0] == c[0] {
      LexLeTransitive(a[1..], b[1..], c[1..]);
    }
  }

  predicate Sorted(s: seq<string>) {
    forall i, j :: 0 <= i < j < |s| ==> LexLe(s[i], s[j])
  }

  predicate NoDuplicates(s: seq<string>) {
    forall i, j :: 0 <= i < j < |s| ==> s[i] != s[j]
  }

  /** A sequence without repeats is one in which every value occurs at most once. */
  lemma {:induction false} NoDuplicatesMultiset(s: seq<string>)
    ensures NoDuplicates(s) <==> forall x :: multiset(s)[x] <= 1
  {
    if NoDuplicates(s) {
      if s != [] {
        assert s == [s[0]] + s[1..];
        assert NoDuplicates(s[1..]);
        NoDuplicatesMultiset(s[1..]);
        assert s[0] !in s[1..];
      }
    } else {
      var i, j :| 0 <= i < j < |s| && s[i] == s[j];
      assert s == s[..j] + s[j..];
      assert s[i] in s[..j];
      assert s[j] in s[j..];
      assert multiset(s)[s[i]] >= 2;
    }
  }

  // ------------------------------------------------ new Set(...) and sort()

  /** `[...new Set(xs)]`: each value once, at its first occurrence. */
  function Distinct(xs: seq<string>): (r: seq<string>)
    ensures NoDuplicates(r)
    ensures forall x :: x in r <==> x in xs
  {
    if xs == [] then []
    else
      var d := Distinct(xs[..|xs| - 1]);
      assert xs == xs[..|xs| - 1] + [xs[|xs| - 1]];
      if xs[|xs| - 1] in d then d else d + [xs[|xs| - 1]]
  }

  /** Insertion of `x` into a sorted sequence, before the first element not below it. */
  function Insert(x: string, s: seq<string>): (r: seq<string>)
    ensures multiset(r) == multiset(s) + multiset{x}
  {
    if s == [] || LexLe(x, s[0]) then [x] + s
    else
      assert s == [s[0]] + s[1..];
      [s[0]] + Insert(x, s[1..])
  }

  lemma {:induction false} InsertSorted(x: string, s: seq<string>)
    requires Sorted(s)
    ensures Sorted(Insert(x, s))
  {
    if s == [] {
    } else if LexLe(x, s[0]) {
      forall j | 0 < j < |s| ensures LexLe(x, s[j]) {
        LexLeTransitive(x, s[0], s[j]);
      }
    } else {
      LexLeTotal(x, s[0]);
      var t := Insert(x, s[1..]);
      InsertSorted(x, s[1..]);
      forall k | 0 <= k < |t| ensures LexLe(s[0], t[k]) {
        assert t[k] in multiset(t);
        if t[k] != x {
          assert t[k] in multiset(s[1..]);
          var j :| 0 <= j < |s[1..]| && s[1..][j] == t[k];
          assert s[j + 1] == t[k];
        }
      }
    }
  }

  /** `xs.sort()` on strings. */
  function Sort(xs: seq<string>): (r: seq<string>)
    ensures Sorted(r) && multiset(r) == multiset(xs)
  {
    if xs == [] then []
    else
      var t := Sort(xs[1..]);
      InsertSorted(xs[0], t);
      assert xs == [xs[0]] + xs[1..];
      Insert(xs[0], t)
  }

  /** Sorted without repeats: each element strictly below the next. */
  predicate StrictlySorted(s: seq<string>) {
    Sorted(s) && NoDuplicates(s)
  }

  /** Two strictly sorted sequences with the same elements are the same sequence. */
  lemma {:induction false} StrictlySortedUnique(a: seq<string>, b: seq<string>)
    requires StrictlySorted(a) && StrictlySorted(b)
    requires forall x :: x in a <==> x in b
    ensures a == b
  {
    if b != [] {
      assert b[0] in b;
    }
    if a != [] {
      assert a[0] in a;
      assert b != [];
      assert b[0] in b;
      var k :| 0 <= k < |b| && b[k] == a[0];
      var m :| 0 <= m < |a| && a[m] == b[0];
      assert LexLe(a[0], b[0]) by {
        if m == 0 { LexLeReflexive(a[0]); }
      }
      assert LexLe(b[0], a[0]) by {
        if k == 0 { LexLeReflexive(b[0]); }
      }
      LexLeAntisymmetric(a[0], b[0]);
      forall x ensures x in a[1..] <==> x in b[1..] {
        if x in a[1..] {
          var i :| 0 <= i < |a[1..]| && a[1..][i] == x;
          assert x == a[i + 1] && x != a[0];
          assert x in b;
          var j :| 0 <= j < |b| && b[j] == x;
          assert j != 0;
          assert b[1..][j - 1] == x;
        }
        if x in b[1..] {
          var j :| 0 <= j < |b[1..]| && b[1..][j] == x;
          assert x == b[j + 1] && x != b[0];
          assert x in a;
          var i :| 0 <= i < |a| && a[i] == x;
          assert i != 0;
          assert a[1..][i - 1] == x;
        }
      }
      StrictlySortedUnique(a[1..], b[1..]);
      assert a == [a[0]] + a[1..] && b == [b[0]] + b[1..];
    }
  }

  // ------------------------------------------------------- the options

  /** `allBooks.map(book => book.category)`. */
  function CategoriesOf(books: seq<Book>): (r: seq<string>)
    ensures |r| == |books|
    ensures forall i :: 0 <= i < |books| ==> r[i] == books[i].category
  {
    seq(|books|, i requires 0 <= i < |books| => books[i].category)
  }

  /** `[...new Set(categories)].sort()`. */
  function SortedCategories(books: seq<Book>): seq<string> {
    Sort(Distinct(CategoriesOf(books)))
  }

  /** One `<option>` of the category selector. */
  datatype SelectOption = SelectOption(text: string, value: string)

  const SentinelText := "Comic"
  const SentinelValue := "invalid-cat"

  /** One option per category, text and value both the category, then the sentinel. */
  function OptionsFor(cs: seq<string>): (opts: seq<SelectOption>)
    ensures |opts| == |cs| + 1 && opts[|cs|] == SelectOption(SentinelText, SentinelValue)
    ensures forall i :: 0 <= i < |cs| ==> opts[i] == SelectOption(cs[i], cs[i])
  {
    seq(|cs|, i requires 0 <= i < |cs| => SelectOption(cs[i], cs[i]))
      + [SelectOption(SentinelText, SentinelValue)]
  }

  /** The options `populateCategories` adds after the first ("all categories") one. */
  function CategoryOptions(books: seq<Book>): seq<SelectOption> {
    OptionsFor(SortedCategories(books))
  }

  /**
   * The category list is strictly ascending (so without repeats) and holds
   * exactly the categories of the records.
   */
  lemma SortedCategoriesSpec(books: seq<Book>)
    ensures StrictlySorted(SortedCategories(books))
    ensures forall c :: c in SortedCategories(books) <==> c in CategoriesOf(books)
  {
    var d := Distinct(CategoriesOf(books));
    var cs := Sort(d);
    NoDuplicatesMultiset(d);
    NoDuplicatesMultiset(cs);
    forall c ensures c in cs <==> c in d {
      assert c in cs <==> c in multiset(cs);
      assert c in d <==> c in multiset(d);
    }
  }

  /**
   * The options: one per category, in the sorted order, text and value both
   * the category, then exactly one sentinel option, last.
   */
  lemma CategoryOptionsSpec(books: seq<Book>)
    ensures var cs := SortedCategories(books);
      var opts := CategoryOptions(books);
      && |opts| == |cs| + 1
      && opts[|cs|] == SelectOption(SentinelText, SentinelValue)
      && forall i :: 0 <= i < |cs| ==> opts[i].text == cs[i] && opts[i].value == cs[i]
    ensures forall i, j :: 0 <= i < j < |CategoryOptions(books)| - 1 ==>
      CategoryOptions(books)[i].value != CategoryOptions(books)[j].value
    ensures forall b :: b in books ==>
      exists i :: 0 <= i < |CategoryOptions(books)| - 1 && CategoryOptions(books)[i].value == b.category
  {
    var cs := SortedCategories(books);
    var opts := CategoryOptions(books);
    SortedCategoriesSpec(books);
    forall b | b in books
      ensures exists i :: 0 <= i < |opts| - 1 && opts[i].value == b.category
    {
      var k :| 0 <= k < |books| && books[k] == b;
      assert CategoriesOf(books)[k] == b.category;
      assert b.category in cs;
      var i :| 0 <= i < |cs| && cs[i] == b.category;
      assert opts[i].value == b.category;
    }
  }

  /**
   * The list depends only on which categories occur: catalog order and
   * repeated categories do not change it.
   */
  lemma SortedCategoriesDependOnlyOnSet(b1: seq<Book>, b2: seq<Book>)
    requires forall c :: c in CategoriesOf(b1) <==> c in CategoriesOf(b2)
    ensures SortedCategories(b1) == SortedCategories(b2)
  {
    SortedCategoriesSpec(b1);
    SortedCategoriesSpec(b2);
    StrictlySortedUnique(SortedCategories(b1), SortedCategories(b2));
  }
}
