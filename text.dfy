/**
 * The string primitives of the JavaScript runtime that the catalog relies
 * on: `trim`, `toLowerCase`, `includes`, and the decimal forms behind
 * `String(n)` and `Number(s)`.
 */
module Text {
  import opened Wrappers

  /** Concatenation regrouped; stated once so that callers need not rediscover it. */
  lemma ConcatAssoc<T>(a: seq<T>, b: seq<T>, c: seq<T>)
    ensures a + (b + c) == (a + b) + c
  {
  }

  // ---------------------------------------------------------------- trim

  /** ECMAScript WhiteSpace and LineTerminator code points: what `trim` removes. */
  predicate IsWhite(c: char) {
    || c == '\t' || c == '\n' || c == '\U{B}' || c == '\U{C}' || c == '\r' || c == ' '
    || c == '\U{A0}' || c == '\U{1680}' || ('\U{2000}' <= c <= '\U{200A}')
    || c == '\U{2028}' || c == '\U{2029}' || c == '\U{202F}' || c == '\U{205F}'
    || c == '\U{3000}' || c == '\U{FEFF}'
  }

  predicate AllWhite(s: string) {
    forall i :: 0 <= i < |s| ==> IsWhite(s[i])
  }

  /** Neither end of `s` is white space. */
  predicate IsTrimmed(s: string) {
    |s| == 0 || (!IsWhite(s[0]) && !IsWhite(s[|s| - 1]))
  }

  /** The length of the white run that starts `s`. */
  function LeadingWhite(s: string): (k: nat)
    ensures k <= |s|
    ensures forall i :: 0 <= i < k ==> IsWhite(s[i])
    ensures k < |s| ==> !IsWhite(s[k])
  {
    if |s| > 0 && IsWhite(s[0]) then 1 + LeadingWhite(s[1..]) else 0
  }

  /** The length of the white run that ends `s`. */
  function TrailingWhite(s: string): (k: nat)
    ensures k <= |s|
    ensures forall i :: |s| - k <= i < |s| ==> IsWhite(s[i])
    ensures k < |s| ==> !IsWhite(s[|s| - 1 - k])
  {
    if |s| > 0 && IsWhite(s[|s| - 1]) then 1 + TrailingWhite(s[..|s| - 1]) else 0
  }

  /** `s.trim()`. */
  function Trim(s: string): (r: string)
    ensures IsTrimmed(r)
    ensures |r| <= |s|
  {
    var t := s[LeadingWhite(s)..];
    t[..|t| - TrailingWhite(t)]
  }

  /** Trim removes exactly the white runs around a trimmed core, whatever they are. */
  lemma {:induction false} TrimExact(w1: string, core: string, w2: string)
    requires AllWhite(w1) && AllWhite(w2) && IsTrimmed(core)
    ensures Trim(w1 + core + w2) == core
  {
    var s := w1 + core + w2;
    var k := LeadingWhite(s);
    assert forall i :: 0 <= i < |w1| ==> s[i] == w1[i];
    if core == [] {
      assert forall i :: |w1| <= i < |s| ==> s[i] == w2[i - |w1|];
      assert k == |s|;
    } else {
      assert s[|w1|] == core[0];
      assert k == |w1|;
      var t := s[k..];
      assert t == core + w2;
      var j := TrailingWhite(t);
      assert t[|t| - 1 - |w2|] == core[|core| - 1];
      assert forall i :: |core| <= i < |t| ==> t[i] == w2[i - |core|];
      assert j == |w2|;
      assert t[..|t| - j] == core;
    }
  }

  /** Trimming twice is trimming once. */
  lemma TrimIdempotent(s: string)
    ensures Trim(Trim(s)) == Trim(s)
  {
    TrimmedUnchanged(Trim(s));
  }

  /** A string with no white space at either end is its own trim. */
  lemma TrimmedUnchanged(s: string)
    requires IsTrimmed(s)
    ensures Trim(s) == s
  {
    TrimExact([], s, []);
    assert [] + s + [] == s;
  }

  // ------------------------------------------------------- toLowerCase

  predicate IsUpper(c: char) {
    'A' <= c <= 'Z'
  }

  function LowerChar(c: char): char {
    if IsUpper(c) then (c as int + 32) as char else c
  }

  predicate NoUpper(s: string) {
    forall i :: 0 <= i < |s| ==> !IsUpper(s[i])
  }

  /** `s.toLowerCase()` on ASCII letters; every other code point is kept. */
  function Lower(s: string): (r: string)
    ensures |r| == |s| && NoUpper(r)
  {
    seq(|s|, i requires 0 <= i < |s| => LowerChar(s[i]))
  }

  /** Lower-casing is the identity on strings without capitals, so it is idempotent. */
  lemma LowerNoUpper(s: string)
    requires NoUpper(s)
    ensures Lower(s) == s
  {
  }

  lemma LowerIdempotent(s: string)
    ensures Lower(Lower(s)) == Lower(s)
  {
    LowerNoUpper(Lower(s));
  }

  // ----------------------------------------------------------- includes

  predicate StartsWith(s: string, p: string) {
    |p| <= |s| && s[..|p|] == p
  }

  /** `s.includes(p)`, as a left-to-right scan. */
  predicate Contains(s: string, p: string)
    decreases |s|
  {
    StartsWith(s, p) || (|s| > 0 && Contains(s[1..], p))
  }

  /** `p` occurs in `s` starting at position `i`. */
  predicate OccursAt(s: string, p: string, i: int) {
    0 <= i <= |s| - |p| && s[i..i + |p|] == p
  }

  /** The scan finds `p` exactly when `p` occurs at some position of `s`. */
  lemma {:induction false} ContainsAt(s: string, p: string)
    ensures Contains(s, p) <==> exists i :: OccursAt(s, p, i)
  {
    if |s| > 0 {
      ContainsAt(s[1..], p);
    }
    if Contains(s, p) {
      if StartsWith(s, p) {
        assert OccursAt(s, p, 0);
      } else {
        var i :| OccursAt(s[1..], p, i);
        assert s[i + 1..i + 1 + |p|] == p;
        assert OccursAt(s, p, i + 1);
      }
    } else if exists i :: OccursAt(s, p, i) {
      var i :| OccursAt(s, p, i);
      if i > 0 {
        assert s[1..][i - 1..i - 1 + |p|] == p;
        assert OccursAt(s[1..], p, i - 1);
      }
    }
  }

  // ------------------------------------------------ decimal numerals

  predicate IsDigit(c: char) {
    '0' <= c <= '9'
  }

  predicate AllDigits(s: string) {
    forall i :: 0 <= i < |s| ==> IsDigit(s[i])
  }

  function DigitChar(d: nat): char
    requires d < 10
  {
    ('0' as int + d) as char
  }

  function DigitValue(c: char): nat
    requires IsDigit(c)
  {
    c as int - '0' as int
  }

  /** The decimal numeral of `n`, as `String(n)` writes it: digits, no leading zero. */
  function NatToDecimal(n: nat): (r: string)
    ensures |r| > 0 && AllDigits(r)
    ensures r[0] == '0' ==> n == 0
  {
    if n < 10 then [DigitChar(n)] else NatToDecimal(n / 10) + [DigitChar(n % 10)]
  }

  /** The value of a string of decimal digits. */
  function DecimalValue(s: string): nat
    requires AllDigits(s)
  {
    if s == [] then 0 else 10 * DecimalValue(s[..|s| - 1]) + DigitValue(s[|s| - 1])
  }

  /** Reading back the numeral of `n` gives `n`. */
  lemma {:induction false} NatDecimalRoundTrip(n: nat)
    ensures DecimalValue(NatToDecimal(n)) == n
  {
    if n >= 10 {
      NatDecimalRoundTrip(n / 10);
      var r := NatToDecimal(n);
      assert r[..|r| - 1] == NatToDecimal(n / 10);
    }
  }

  /** `String(n)` for an integer. */
  function IntToDecimal(n: int): (r: string)
    ensures |r| > 0 && !IsWhite(r[0]) && !IsWhite(r[|r| - 1])
  {
    if n < 0 then "-" + NatToDecimal(-n) else NatToDecimal(n)
  }

  /**
   * `Number(s)` for a string: after trimming, the empty string is 0 and an
   * optional sign followed by decimal digits is their value; anything else
   * is NaN, written None.
   */
  function ParseNumber(s: string): Option<int> {
    var t := Trim(s);
    if t == [] then Some(0)
    else if t[0] == '-' || t[0] == '+' then
      var d := t[1..];
      if |d| > 0 && AllDigits(d) then
        Some(if t[0] == '-' then 0 - DecimalValue(d) else DecimalValue(d))
      else None
    else if AllDigits(t) then Some(DecimalValue(t))
    else None
  }

  /** `Number(String(n)) === n` for every integer. */
  lemma ParseNumberRoundTrip(n: int)
    ensures ParseNumber(IntToDecimal(n)) == Some(n)
  {
    var r := IntToDecimal(n);
    TrimmedUnchanged(r);
    if n < 0 {
      assert r[1..] == NatToDecimal(-n);
      NatDecimalRoundTrip(-n);
    } else {
      NatDecimalRoundTrip(n);
    }
  }

  /** The length of the run of decimal digits that `s` starts with. */
  function DigitRun(s: string): (k: nat)
    ensures k <= |s| && AllDigits(s[..k])
    ensures k < |s| ==> !IsDigit(s[k])
  {
    if s == [] || !IsDigit(s[0]) then 0
    else
      var k := 1 + DigitRun(s[1..]);
      assert forall i :: 1 <= i < k ==> s[..k][i] == s[1..][..k - 1][i - 1];
      k
  }

  /**
   * `parseInt(s)` in base 10: leading white space is skipped, an optional
   * sign is read, then the longest run of digits gives the value and the
   * rest of the string is ignored; None (NaN) when that run is empty.
   */
  function ParseInt(s: string): (r: Option<int>)
    ensures r.Some? ==> exists k :: 0 <= k < |s| && IsDigit(s[k])
  {
    var t := s[LeadingWhite(s)..];
    var signed := t != [] && (t[0] == '-' || t[0] == '+');
    var u := if signed then t[1..] else t;
    var k := DigitRun(u);
    if k == 0 then None
    else
      assert u[0] == s[LeadingWhite(s) + (if signed then 1 else 0)];
      Some(if signed && t[0] == '-' then 0 - DecimalValue(u[..k]) else DecimalValue(u[..k]))
  }

  /** A run of digits followed by a non-digit (or nothing) is read to its end. */
  lemma {:induction false} DigitRunOf(d: string, rest: string)
    requires AllDigits(d) && (rest == [] || !IsDigit(rest[0]))
    ensures DigitRun(d + rest) == |d|
  {
    if d != [] {
      assert (d + rest)[1..] == d[1..] + rest;
      DigitRunOf(d[1..], rest);
    } else {
      assert d + rest == rest;
    }
  }

  /** `parseInt` reads a leading numeral and ignores whatever follows a non-digit. */
  lemma ParseIntLeadingNumeral(n: nat, rest: string)
    requires rest == [] || !IsDigit(rest[0])
    ensures ParseInt(NatToDecimal(n) + rest) == Some(n)
  {
    var d := NatToDecimal(n);
    var s := d + rest;
    assert !IsWhite(s[0]) && s[0] == d[0];
    assert s[0..] == s;
    DigitRunOf(d, rest);
    assert s[..|d|] == d;
    NatDecimalRoundTrip(n);
  }
}
