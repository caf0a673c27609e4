/**
 * Book ids (`generateBookId`): the text `title-authors-year`, lower-cased,
 * with every run of characters other than `a-z0-9` turned into one hyphen
 * and a hyphen at either end removed; a book missing one of the three
 * fields gets the fixed id `invalid-book-id`.
 */
module Slug {
  import opened Text
  import opened Raw

  predicate IsSlugAlnum(c: char) {
    'a' <= c <= 'z' || '0' <= c <= '9'
  }

  predicate IsSlugChar(c: char) {
    IsSlugAlnum(c) || c == '-'
  }

  predicate SlugChars(s: string) {
    forall i :: 0 <= i < |s| ==> IsSlugChar(s[i])
  }

  predicate NoDoubleHyphen(s: string) {
    forall i :: 0 <= i < |s| - 1 ==> !(s[i] == '-' && s[i + 1] == '-')
  }

  /** A well-formed id: only `a-z`, `0-9` and `-`, never `--`, no hyphen at either end. */
  predicate IsSlug(s: string) {
    && SlugChars(s)
    && NoDoubleHyphen(s)
    && (|s| > 0 ==> s[0] != '-' && s[|s| - 1] != '-')
  }

  /** The letters and digits of `s`, in order. */
  function AlnumOf(s: string): string {
    if s == [] then [] else (if IsSlugAlnum(s[0]) then [s[0]] else []) + AlnumOf(s[1..])
  }

  lemma {:induction false} AlnumOfConcat(a: string, b: string)
    ensures AlnumOf(a + b) == AlnumOf(a) + AlnumOf(b)
  {
    if a == [] {
      assert a + b == b;
    } else {
      var head := if IsSlugAlnum(a[0]) then [a[0]] else [];
      assert (a + b)[0] == a[0];
      assert (a + b)[1..] == a[1..] + b;
      assert AlnumOf(a + b) == head + AlnumOf(a[1..] + b);
      AlnumOfConcat(a[1..], b);
      ConcatAssoc(head, AlnumOf(a[1..]), AlnumOf(b));
    }
  }

  // --------------------------------------------- .replace(/[^a-z0-9]+/g, '-')

  /** `s` without its leading run of characters other than `a-z0-9`. */
  function DropNonAlnum(s: string): (r: string)
    ensures |r| <= |s| && (r == [] || IsSlugAlnum(r[0]))
    ensures AlnumOf(r) == AlnumOf(s)
  {
    if |s| > 0 && !IsSlugAlnum(s[0]) then DropNonAlnum(s[1..]) else s
  }

  /** `s.replace(/[^a-z0-9]+/g, '-')`: every maximal run of other characters becomes one hyphen. */
  function ReplaceNonAlnumRuns(s: string): (r: string)
    ensures SlugChars(r) && NoDoubleHyphen(r)
    ensures AlnumOf(r) == AlnumOf(s)
    ensures |s| > 0 && IsSlugAlnum(s[0]) ==> |r| > 0 && r[0] == s[0]
    decreases |s|
  {
    if s == [] then []
    else if IsSlugAlnum(s[0]) then
      var rest := ReplaceNonAlnumRuns(s[1..]);
      AlnumOfConcat([s[0]], rest);
      AlnumOfConcat([s[0]], s[1..]);
      assert [s[0]] + s[1..] == s;
      [s[0]] + rest
    else
      var rest := ReplaceNonAlnumRuns(DropNonAlnum(s[1..]));
      AlnumOfConcat("-", rest);
      AlnumOfConcat([s[0]], s[1..]);
      assert [s[0]] + s[1..] == s;
      "-" + rest
  }

  /** On text that is already hyphen-separated `a-z0-9`, the replacement changes nothing. */
  lemma {:induction false} ReplaceNonAlnumRunsNoop(s: string)
    requires SlugChars(s) && NoDoubleHyphen(s)
    ensures ReplaceNonAlnumRuns(s) == s
  {
    if s != [] {
      assert SlugChars(s[1..]) && NoDoubleHyphen(s[1..]);
      ReplaceNonAlnumRunsNoop(s[1..]);
      if !IsSlugAlnum(s[0]) {
        assert DropNonAlnum(s[1..]) == s[1..];
      }
    }
  }

  // ---------------------------------------------------- .replace(/-+/g, '-')

  /** `s` without its leading run of hyphens. */
  function DropHyphens(s: string): (r: string)
    ensures |r| <= |s| && (r == [] || r[0] != '-')
  {
    if |s| > 0 && s[0] == '-' then DropHyphens(s[1..]) else s
  }

  /** `s.replace(/-+/g, '-')`: every run of hyphens becomes one hyphen. */
  function SquashHyphens(s: string): (r: string)
    ensures NoDoubleHyphen(r)
    ensures |s| > 0 ==> |r| > 0 && r[0] == s[0]
    decreases |s|
  {
    if s == [] then []
    else if s[0] == '-' then "-" + SquashHyphens(DropHyphens(s[1..]))
    else [s[0]] + SquashHyphens(s[1..])
  }

  /** On text without `--` the squash changes nothing. */
  lemma {:induction false} SquashHyphensNoop(s: string)
    requires NoDoubleHyphen(s)
    ensures SquashHyphens(s) == s
  {
    if s != [] {
      assert NoDoubleHyphen(s[1..]);
      SquashHyphensNoop(s[1..]);
      if s[0] == '-' {
        assert DropHyphens(s[1..]) == s[1..];
      }
    }
  }

  /** The second replacement of the chain never has anything left to do. */
  lemma SquashAfterReplaceRedundant(s: string)
    ensures SquashHyphens(ReplaceNonAlnumRuns(s)) == ReplaceNonAlnumRuns(s)
  {
    SquashHyphensNoop(ReplaceNonAlnumRuns(s));
  }

  // --------------------------------------------------- .replace(/(^-|-$)/g, '')

  /**
   * `s.replace(/(^-|-$)/g, '')`: a hyphen that starts `s` goes, and so does a
   * hyphen that ends it, unless that is the same hyphen.
   */
  function StripEdgeHyphens(s: string): (r: string)
    ensures |r| <= |s|
  {
    var t := if |s| > 0 && s[0] == '-' then s[1..] else s;
    if |t| > 0 && t[|t| - 1] == '-' then t[..|t| - 1] else t
  }

  // ------------------------------------------------------------ the chain

  /** `s.toLowerCase()` followed by the three replacements. */
  function SlugOf(s: string): string {
    StripEdgeHyphens(SquashHyphens(ReplaceNonAlnumRuns(Lower(s))))
  }

  /** Every id the chain produces is well formed. */
  lemma SlugWellFormed(s: string)
    ensures IsSlug(SlugOf(s))
  {
    SquashAfterReplaceRedundant(Lower(s));
    StripWellFormed(ReplaceNonAlnumRuns(Lower(s)));
  }

  /** Removing the edge hyphens of hyphen-separated `a-z0-9` text gives a well-formed id. */
  lemma StripWellFormed(x: string)
    requires SlugChars(x) && NoDoubleHyphen(x)
    ensures IsSlug(StripEdgeHyphens(x))
  {
    var t := if |x| > 0 && x[0] == '-' then x[1..] else x;
    assert SlugChars(t) && NoDoubleHyphen(t);
    assert |t| > 0 ==> t[0] != '-' by {
      if |x| > 0 && x[0] == '-' && |t| > 0 {
        assert t[0] == x[1];
      }
    }
    var r := StripEdgeHyphens(x);
    if |t| > 0 && t[|t| - 1] == '-' {
      assert r == t[..|t| - 1];
      assert |r| > 0 ==> r[|r| - 1] == t[|t| - 2];
    }
  }

  /** Removing edge hyphens removes no letter or digit. */
  lemma StripKeepsAlnum(x: string)
    ensures AlnumOf(StripEdgeHyphens(x)) == AlnumOf(x)
  {
    var t := if |x| > 0 && x[0] == '-' then x[1..] else x;
    if |x| > 0 && x[0] == '-' {
      AlnumOfConcat(x[..1], x[1..]);
      assert x[..1] + x[1..] == x;
    }
    assert AlnumOf(t) == AlnumOf(x);
    if |t| > 0 && t[|t| - 1] == '-' {
      AlnumOfConcat(t[..|t| - 1], t[|t| - 1..]);
      assert t[..|t| - 1] + t[|t| - 1..] == t;
      assert AlnumOf(t[|t| - 1..]) == [];
    }
  }

  /** The id keeps every letter and digit of the lower-cased text, in order, and adds none. */
  lemma SlugKeepsAlnum(s: string)
    ensures AlnumOf(SlugOf(s)) == AlnumOf(Lower(s))
  {
    var x := ReplaceNonAlnumRuns(Lower(s));
    SquashAfterReplaceRedundant(Lower(s));
    StripKeepsAlnum(x);
  }

  /** Applying the chain to an id gives the same id back. */
  lemma SlugIdempotent(s: string)
    ensures SlugOf(SlugOf(s)) == SlugOf(s)
  {
    SlugWellFormed(s);
    SlugOfSlug(SlugOf(s));
  }

  /** An id is left as it is by the chain. */
  lemma SlugOfSlug(s: string)
    requires IsSlug(s)
    ensures SlugOf(s) == s
  {
    assert NoUpper(s);
    LowerNoUpper(s);
    ReplaceNonAlnumRunsNoop(s);
    SquashHyphensNoop(s);
    assert SquashHyphens(ReplaceNonAlnumRuns(Lower(s))) == s;
    if s != [] {
      StripJoined(s, s);
    }
  }

  /** The chain starts by lower-casing, so lower-casing first changes nothing. */
  lemma SlugOfLower(s: string)
    ensures SlugOf(Lower(s)) == SlugOf(s)
  {
    LowerIdempotent(s);
  }

  predicate AllAlnum(s: string) {
    forall i :: 0 <= i < |s| ==> IsSlugAlnum(s[i])
  }

  predicate NoAlnum(s: string) {
    forall i :: 0 <= i < |s| ==> !IsSlugAlnum(s[i])
  }

  /** The first replacement copies a leading run of letters and digits. */
  lemma {:induction false} ReplaceAlnumPrefix(w: string, rest: string)
    requires AllAlnum(w)
    ensures ReplaceNonAlnumRuns(w + rest) == w + ReplaceNonAlnumRuns(rest)
  {
    if w == [] {
      assert w + rest == rest;
    } else {
      var s := w + rest;
      assert s[0] == w[0] && IsSlugAlnum(s[0]);
      assert s[1..] == w[1..] + rest;
      assert ReplaceNonAlnumRuns(s) == [w[0]] + ReplaceNonAlnumRuns(s[1..]);
      ReplaceAlnumPrefix(w[1..], rest);
      HeadTail(w, ReplaceNonAlnumRuns(rest));
    }
  }

  lemma HeadTail<T>(x: seq<T>, y: seq<T>)
    requires x != []
    ensures [x[0]] + (x[1..] + y) == x + y
  {
    assert x == [x[0]] + x[1..];
  }

  /** Dropping a leading run of other characters stops at the next letter or digit. */
  lemma {:induction false} DropNonAlnumPrefix(p: string, rest: string)
    requires NoAlnum(p) && (rest == [] || IsSlugAlnum(rest[0]))
    ensures DropNonAlnum(p + rest) == rest
  {
    if p == [] {
      assert p + rest == rest;
    } else {
      assert (p + rest)[1..] == p[1..] + rest;
      DropNonAlnumPrefix(p[1..], rest);
    }
  }

  /** The first replacement turns a whole run of other characters into one hyphen. */
  lemma ReplaceRunPrefix(p: string, rest: string)
    requires p != [] && NoAlnum(p) && (rest == [] || IsSlugAlnum(rest[0]))
    ensures ReplaceNonAlnumRuns(p + rest) == "-" + ReplaceNonAlnumRuns(rest)
  {
    assert (p + rest)[1..] == p[1..] + rest;
    DropNonAlnumPrefix(p[1..], rest);
  }

  /**
   * Case and punctuation collapse: any text whose lower-case form is a word,
   * a run of other characters, a word and an optional trailing run of other
   * characters ("Foo Bar!", "foo  --  bar") gives the id `word-word`.
   */
  lemma SlugOfTwoWords(x: string, a: string, p: string, b: string, q: string)
    requires a != [] && b != [] && p != []
    requires AllAlnum(a) && AllAlnum(b) && NoAlnum(p) && NoAlnum(q)
    requires Lower(x) == a + p + b + q
    ensures SlugOf(x) == a + "-" + b
  {
    var r := ReplaceNonAlnumRuns(Lower(x));
    ReplaceTwoWords(a, p, b, q);
    SquashAfterReplaceRedundant(Lower(x));
    StripJoined(a + "-" + b, r);
  }

  /** The first replacement joins the two words with one hyphen and ends a trailing run in one. */
  lemma ReplaceTwoWords(a: string, p: string, b: string, q: string)
    requires a != [] && b != [] && p != []
    requires AllAlnum(a) && AllAlnum(b) && NoAlnum(p) && NoAlnum(q)
    ensures ReplaceNonAlnumRuns(a + p + b + q) == a + "-" + b + (if q == [] then [] else "-")
  {
    assert a + p + b + q == a + (p + (b + q));
    ReplaceAlnumPrefix(a, p + (b + q));
    assert (b + q)[0] == b[0];
    ReplaceRunPrefix(p, b + q);
    ReplaceWordThenRun(b, q);
    var tail: string := if q == [] then [] else "-";
    ConcatAssoc("-", b, tail);
    ConcatAssoc(a, "-" + b, tail);
    ConcatAssoc(a, "-", b);
  }

  /** A word followed by an optional run: the word, then one hyphen when the run is there. */
  lemma ReplaceWordThenRun(b: string, q: string)
    requires AllAlnum(b) && NoAlnum(q)
    ensures ReplaceNonAlnumRuns(b + q) == b + (if q == [] then [] else "-")
  {
    ReplaceAlnumPrefix(b, q);
    if q != [] {
      assert q + [] == q;
      ReplaceRunPrefix(q, []);
    }
  }

  /** Stripping keeps a text that starts with a letter or digit and ends in one, or in one hyphen after it. */
  lemma StripJoined(y: string, r: string)
    requires y != [] && y[0] != '-' && y[|y| - 1] != '-'
    requires r == y || r == y + "-"
    ensures StripEdgeHyphens(r) == y
  {
    assert r[0] == y[0];
    if r == y + "-" {
      assert r[..|r| - 1] == y;
    }
  }

  // ------------------------------------------------------- generateBookId

  const InvalidBookId := "invalid-book-id"

  /** The text `${title}-${authors}-${year}` the id is made from. */
  function IdBase(book: RawBook): string
    requires Truthy(book.title) && Truthy(book.authors) && Truthy(book.year)
  {
    ToText(book.title) + "-" + ToText(book.authors) + "-" + ToText(book.year)
  }

  /** `generateBookId(book)`. */
  function GenerateBookId(book: RawBook): (id: string)
    ensures IsSlug(id)
    ensures !(Truthy(book.title) && Truthy(book.authors) && Truthy(book.year)) ==> id == InvalidBookId
    ensures Truthy(book.title) && Truthy(book.authors) && Truthy(book.year) ==>
              AlnumOf(id) == AlnumOf(Lower(IdBase(book)))
  {
    if !Truthy(book.title) || !Truthy(book.authors) || !Truthy(book.year) then
      assert IsSlug(InvalidBookId);
      InvalidBookId
    else
      SlugWellFormed(IdBase(book));
      SlugKeepsAlnum(IdBase(book));
      SlugOf(IdBase(book))
  }

  lemma SentinelIsSlug()
    ensures IsSlug(InvalidBookId)
  {
  }

  lemma LowerSentinelText()
    ensures Lower("Invalid-Book-ID") == InvalidBookId
  {
  }

  /**
   * The sentinel is not reserved: a complete book can slug to the same id, so
   * an id does not tell a malformed record from a well-formed one.
   */
  lemma SentinelCollides(book: RawBook)
    requires book.title == Str("Invalid") && book.authors == Str("Book") && book.year == Str("ID")
    ensures Truthy(book.title) && Truthy(book.authors) && Truthy(book.year)
    ensures GenerateBookId(book) == InvalidBookId
  {
    var base := IdBase(book);
    assert base == "Invalid-Book-ID";
    LowerSentinelText();
    SlugOfLower(base);
    SentinelIsSlug();
    SlugOfSlug(InvalidBookId);
  }
}
