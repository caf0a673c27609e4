/**
 * The shopping cart (`handleAddToCart`, `updateCartDisplay`, `resetCart`).
 * The cart is a list of entries, one per book id, each with a quantity; the
 * badge shows the sum of the quantities. Adding asks for a quantity, accepts
 * 1 to 99, and either raises the quantity of the entry with the same id or
 * appends a new entry. The merged quantity itself is not capped.
 */
module Cart {
  import opened Wrappers
  import opened Text
  import opened Raw
  import opened Render

  /** What `handleAddToCart` reads from the checked row: its id, title cell and price. */
  datatype Selection = Selection(id: string, title: string, price: JsValue)

  /** The selection taken from a rendered book row. */
  function SelectionOf(r: Row): Selection
    requires r.BookRow?
  {
    Selection(r.bookId, r.title, r.price)
  }

  /** One line of the cart. */
  datatype CartEntry = CartEntry(id: string, title: string, price: JsValue, quantity: int)

  /** Which way an add request ended: the two refusals each raise their own alert. */
  datatype AddOutcome = NoSelection | InvalidQuantity | Added

  // ------------------------------------------------------------- quantity

  /**
   * `getValidQuantity`: the prompt's answer (None when it was cancelled,
   * which `parseInt` reads as NaN) read with `parseInt`, kept only when it is
   * an integer from 1 to 99.
   */
  function ValidQuantity(input: Option<string>): (q: Option<int>)
    ensures q.Some? ==> 1 <= q.value <= 99
    ensures q.Some? ==> input.Some? && ParseInt(input.value) == q
    ensures input.Some? && ParseInt(input.value).Some? && 1 <= ParseInt(input.value).value <= 99 ==> q.Some?
  {
    match input
    case None => None
    case Some(s) =>
      match ParseInt(s)
      case None => None
      case Some(n) => if 0 < n < 100 then Some(n) else None
  }

  /**
   * An answer that starts with the numeral of `n` is accepted exactly when
   * `n` is from 1 to 99, and then as `n`, whatever follows the digits.
   */
  lemma ValidQuantityOfNumeral(n: nat, rest: string)
    requires rest == [] || !IsDigit(rest[0])
    ensures ValidQuantity(Some(NatToDecimal(n) + rest)).Some? <==> 1 <= n <= 99
    ensures 1 <= n <= 99 ==> ValidQuantity(Some(NatToDecimal(n) + rest)) == Some(n)
  {
    ParseIntLeadingNumeral(n, rest);
  }

  // ------------------------------------------------------------- totals

  /** `cart.reduce((sum, item) => sum + item.quantity, 0)`. */
  function TotalQuantity(items: seq<CartEntry>): int {
    if items == [] then 0
    else TotalQuantity(items[..|items| - 1]) + items[|items| - 1].quantity
  }

  /** The quantity held for `id`: the sum over the entries with that id. */
  function QuantityOf(items: seq<CartEntry>, id: string): int {
    if items == [] then 0
    else QuantityOf(items[..|items| - 1], id)
         + (if items[|items| - 1].id == id then items[|items| - 1].quantity else 0)
  }

  /** No two entries share an id. */
  predicate UniqueIds(items: seq<CartEntry>) {
    forall i, j :: 0 <= i < j < |items| ==> items[i].id != items[j].id
  }

  /** Every entry holds at least one copy. */
  predicate PositiveQuantities(items: seq<CartEntry>) {
    forall i :: 0 <= i < |items| ==> items[i].quantity >= 1
  }

  /** Replacing one entry changes the total by the difference of the two quantities. */
  lemma {:induction false} TotalUpdate(items: seq<CartEntry>, k: nat, e: CartEntry)
    requires k < |items|
    ensures TotalQuantity(items[k := e]) == TotalQuantity(items) - items[k].quantity + e.quantity
  {
    var n := |items|;
    if k == n - 1 {
      assert items[k := e][..n - 1] == items[..n - 1];
    } else {
      assert items[k := e][..n - 1] == items[..n - 1][k := e];
      TotalUpdate(items[..n - 1], k, e);
    }
  }

  /** Replacing one entry changes the quantity held for each id accordingly. */
  lemma {:induction false} QuantityOfUpdate(items: seq<CartEntry>, k: nat, e: CartEntry, id: string)
    requires k < |items|
    ensures QuantityOf(items[k := e], id) ==
            QuantityOf(items, id) - (if items[k].id == id then items[k].quantity else 0)
                                  + (if e.id == id then e.quantity else 0)
  {
    var n := |items|;
    if k == n - 1 {
      assert items[k := e][..n - 1] == items[..n - 1];
    } else {
      assert items[k := e][..n - 1] == items[..n - 1][k := e];
      QuantityOfUpdate(items[..n - 1], k, e, id);
    }
  }

  /** With positive quantities the total is at least the number of entries. */
  lemma {:induction false} TotalAtLeastCount(items: seq<CartEntry>)
    requires PositiveQuantities(items)
    ensures TotalQuantity(items) >= |items|
  {
    if items != [] {
      TotalAtLeastCount(items[..|items| - 1]);
    }
  }

  // ------------------------------------------------------------- adding

  /**
   * `cart.find(item => item.id === id)`: the index of the first entry with
   * that id, or -1.
   */
  function FindEntry(items: seq<CartEntry>, id: string): (k: int)
    ensures -1 <= k < |items|
    ensures k >= 0 ==> items[k].id == id && forall j :: 0 <= j < k ==> items[j].id != id
    ensures k == -1 ==> forall j :: 0 <= j < |items| ==> items[j].id != id
  {
    if items == [] then -1
    else if items[0].id == id then 0
    else
      var k := FindEntry(items[1..], id);
      if k == -1 then -1 else k + 1
  }

  /** The cart after adding `q` copies of the selected book. */
  function AddTo(items: seq<CartEntry>, sel: Selection, q: int): seq<CartEntry> {
    var k := FindEntry(items, sel.id);
    if k >= 0 then items[k := items[k].(quantity := items[k].quantity + q)]
    else items + [CartEntry(sel.id, sel.title, sel.price, q)]
  }

  /**
   * Adding `q` copies raises the total by `q` and the quantity held for the
   * selected id by `q`, leaves the quantity for every other id as it was,
   * keeps the entries' ids distinct and positive, and appends a new entry
   * exactly when the id was not yet in the cart.
   */
  lemma AddToSpec(items: seq<CartEntry>, sel: Selection, q: int)
    ensures TotalQuantity(AddTo(items, sel, q)) == TotalQuantity(items) + q
    ensures forall id :: QuantityOf(AddTo(items, sel, q), id) ==
                         QuantityOf(items, id) + (if id == sel.id then q else 0)
    ensures (exists i :: 0 <= i < |items| && items[i].id == sel.id) ==> |AddTo(items, sel, q)| == |items|
    ensures (forall i :: 0 <= i < |items| ==> items[i].id != sel.id) ==>
              AddTo(items, sel, q) == items + [CartEntry(sel.id, sel.title, sel.price, q)]
    ensures UniqueIds(items) ==> UniqueIds(AddTo(items, sel, q))
    ensures PositiveQuantities(items) && q >= 1 ==> PositiveQuantities(AddTo(items, sel, q))
  {
    var k := FindEntry(items, sel.id);
    if k >= 0 {
      TotalUpdate(items, k, items[k].(quantity := items[k].quantity + q));
      forall id ensures QuantityOf(AddTo(items, sel, q), id) ==
                        QuantityOf(items, id) + (if id == sel.id then q else 0) {
        QuantityOfUpdate(items, k, items[k].(quantity := items[k].quantity + q), id);
      }
    } else {
      var e := CartEntry(sel.id, sel.title, sel.price, q);
      assert (items + [e])[..|items|] == items;
    }
  }

  /**
   * Adding touches one entry at most: the entry with the selected id keeps
   * its id, title and price and only its quantity rises, every other entry
   * stays as it was at its position, and a new entry goes at the end.
   */
  lemma AddToKeepsEntries(items: seq<CartEntry>, sel: Selection, q: int)
    ensures |AddTo(items, sel, q)| >= |items|
    ensures forall j :: 0 <= j < |items| ==> AddTo(items, sel, q)[j].id == items[j].id
    ensures var k := FindEntry(items, sel.id);
      k >= 0 ==>
        && AddTo(items, sel, q)[k] == items[k].(quantity := items[k].quantity + q)
        && forall j :: 0 <= j < |items| && j != k ==> AddTo(items, sel, q)[j] == items[j]
    ensures FindEntry(items, sel.id) == -1 ==>
              forall j :: 0 <= j < |items| ==> AddTo(items, sel, q)[j] == items[j]
  {
  }

  /**
   * The quantity of one book is not capped at 99: two accepted adds of 99
   * copies of the same book leave 198 of it in the cart.
   */
  lemma MergedQuantityIsNotCapped(sel: Selection)
    ensures ValidQuantity(Some("99")) == Some(99)
    ensures QuantityOf(AddTo(AddTo([], sel, 99), sel, 99), sel.id) == 198
  {
    assert NatToDecimal(99) + [] == "99";
    ValidQuantityOfNumeral(99, []);
    AddToSpec([], sel, 99);
    AddToSpec(AddTo([], sel, 99), sel, 99);
  }

  /**
   * Entries are keyed by id alone: a second selection with the same id only
   * raises the quantity, and its own title and price are dropped.
   */
  lemma SameIdMerges(first: Selection, second: Selection, q1: int, q2: int)
    requires first.id == second.id
    ensures AddTo(AddTo([], first, q1), second, q2) == [CartEntry(first.id, first.title, first.price, q1 + q2)]
  {
    assert AddTo([], first, q1) == [CartEntry(first.id, first.title, first.price, q1)];
  }

  // ------------------------------------------------------------- the cart

  class ShoppingCart {
    var items: seq<CartEntry>
    /** The number the `#cartCount` badge shows. */
    var cartCount: int

    /** Entries have distinct ids and positive quantities, and the badge shows their sum. */
    predicate Valid()
      reads this
    {
      UniqueIds(items) && PositiveQuantities(items) && cartCount == TotalQuantity(items)
    }

    constructor ()
      ensures Valid() && items == [] && cartCount == 0
    {
      items := [];
      cartCount := 0;
    }

    /** `updateCartDisplay`: the badge shows the sum of the quantities. */
    method UpdateCartDisplay()
      modifies this
      ensures items == old(items)
      ensures cartCount == TotalQuantity(items)
    {
      var total := 0;
      var i := 0;
      while i < |items|
        invariant 0 <= i <= |items|
        invariant total == TotalQuantity(items[..i])
      {
        assert items[..i + 1][..i] == items[..i];
        total := total + items[i].quantity;
        i := i + 1;
      }
      assert items[..i] == items;
      cartCount := total;
    }

    /**
     * `handleAddToCart`: no checked row, or an answer that is not a
     * quantity from 1 to 99, leaves the cart as it was; otherwise the
     * quantity goes onto the entry with the row's id, or onto a new entry
     * at the end, and the badge is refreshed.
     */
    method AddItem(selection: Option<Selection>, input: Option<string>) returns (outcome: AddOutcome)
      requires Valid()
      modifies this
      ensures Valid()
      ensures selection.None? ==> outcome == NoSelection
      ensures selection.Some? && ValidQuantity(input).None? ==> outcome == InvalidQuantity
      ensures outcome != Added ==> items == old(items) && cartCount == old(cartCount)
      ensures selection.Some? && ValidQuantity(input).Some? ==>
                && outcome == Added
                && items == AddTo(old(items), selection.value, ValidQuantity(input).value)
                && cartCount == old(cartCount) + ValidQuantity(input).value
    {
      if selection.None? {
        return NoSelection;
      }
      var quantity := ValidQuantity(input);
      if quantity.None? {
        return InvalidQuantity;
      }
      Put(selection.value, quantity.value);
      outcome := Added;
    }

    /**
     * The accepted branch of `handleAddToCart`: `q` copies go onto the entry
     * with the selection's id, or onto a new entry at the end, and the badge
     * is refreshed.
     */
    method Put(sel: Selection, q: int)
      requires Valid() && q >= 1
      modifies this
      ensures Valid()
      ensures items == AddTo(old(items), sel, q)
      ensures cartCount == old(cartCount) + q
    {
      AddToSpec(items, sel, q);
      var k := FindEntry(items, sel.id);
      if k >= 0 {
        items := items[k := items[k].(quantity := items[k].quantity + q)];
      } else {
        items := items + [CartEntry(sel.id, sel.title, sel.price, q)];
      }
      UpdateCartDisplay();
    }

    /**
     * `resetCart`: an empty cart, or a declined confirmation, changes nothing
     * and answers false; otherwise the cart is emptied, the badge shows 0 and
     * the answer is true.
     */
    method Reset(confirmed: bool) returns (ok: bool)
      requires Valid()
      modifies this
      ensures Valid()
      ensures ok <==> old(items) != [] && confirmed
      ensures !ok ==> items == old(items) && cartCount == old(cartCount)
      ensures ok ==> items == [] && cartCount == 0
    {
      if items == [] {
        return false;
      }
      if !confirmed {
        return false;
      }
      items := [];
      UpdateCartDisplay();
      return true;
    }
  }
}
