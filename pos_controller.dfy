/**
 * The point-of-sale terminal's server side: the products offered for sale,
 * the advisory discount-code check, and the checkout transaction that writes
 * an order with its items and takes the sold quantities off the stock.
 */
module PosController {
  import opened Optional
  import opened Schema
  import opened OrderStatusEnum

  // ---------------------------------------------------------------------
  // posProducts
  // ---------------------------------------------------------------------

  /** A product the terminal offers: active, in stock and not soft-deleted. */
  predicate OnSale(p: Product) {
    p.isActive && p.quantity > 0 && !p.trashed
  }

  /** `posProducts`: the ids of the products on sale. */
  function PosProducts(products: map<nat, Product>): (ids: set<nat>)
    ensures ids <= products.Keys
    ensures forall id :: id in products ==>
      (id in ids <==> products[id].isActive && products[id].quantity > 0 && !products[id].trashed)
  {
    set id | id in products && OnSale(products[id])
  }

  // ---------------------------------------------------------------------
  // validateDiscount
  // ---------------------------------------------------------------------

  /** The query of `GET /pos-discounts/validate`. */
  datatype DiscountQuery = DiscountQuery(code: string, amount: Cents, quantity: int, productId: Option<nat>)

  /** A query parameter that broke its validation rule. */
  datatype QueryParam = CodeParam | AmountParam | QuantityParam | ProductParam

  /**
   * The parameters the validator reports: `code` required, `amount` and
   * `quantity` at least 0, `product_id` naming an existing row (soft-deleted
   * rows included) when given.
   */
  function QueryViolations(q: DiscountQuery, products: map<nat, Product>): (errs: set<QueryParam>)
    ensures errs == {} <==>
      |q.code| > 0 && q.amount >= 0 && q.quantity >= 0 && (q.productId.Some? ==> q.productId.value in products)
  {
    (if |q.code| > 0 then {} else {CodeParam})
    + (if q.amount >= 0 then {} else {AmountParam})
    + (if q.quantity >= 0 then {} else {QuantityParam})
    + (if q.productId.Some? && q.productId.value !in products then {ProductParam} else {})
  }

  /** The outcome of a discount-code check. */
  datatype DiscountCheck =
    | QueryRejected(params: set<QueryParam>)
    | NotFound(message: string)
    | Invalid(message: string)
    | Applicable(discount: Discount, discountAmount: Cents, scope: string, applicableTo: Option<nat>)

  const NotFoundMessage := "Discount code not found"
  const NeedsProductMessage := "This discount must be applied to a specific product"
  const NotApplicableMessage := "Discount is not applicable"

  /** The index of the first row with the given code (`where('code', …)->first()`), if any. */
  function FirstWithCode(rows: seq<Discount>, code: string): (k: Option<nat>)
    ensures k.None? <==> forall i :: 0 <= i < |rows| ==> rows[i].code != code
    ensures k.Some? ==> k.value < |rows| && rows[k.value].code == code
    ensures k.Some? ==> forall i :: 0 <= i < k.value ==> rows[i].code != code
  {
    if rows == [] then None
    else if rows[0].code == code then Some(0)
    else match FirstWithCode(rows[1..], code)
      case None => None
      case Some(k) => Some(k + 1)
  }

  /**
   * The product the check is made for (`$productId ? Product::find($productId) : null`):
   * none when no id, the falsy id 0, or a missing or soft-deleted row is given.
   */
  function TargetProduct(q: DiscountQuery, products: map<nat, Product>): (p: Option<nat>)
    ensures p.Some? <==>
      q.productId.Some? && q.productId.value != 0 && q.productId.value in products && !products[q.productId.value].trashed
    ensures p.Some? ==> p == q.productId
  {
    if q.productId.Some? && q.productId.value != 0 && q.productId.value in products
       && !products[q.productId.value].trashed
    then q.productId else None
  }

  /**
   * `validateDiscount`: an ordered chain of early returns. `isApplicable`
   * and `calculate` stand for the discount record's own rules, which are not
   * part of this model.
   */
  function ValidateDiscount(
    q: DiscountQuery, rows: seq<Discount>, products: map<nat, Product>,
    isApplicable: (Discount, Cents, int, Option<nat>) -> bool,
    calculate: (Discount, Cents) -> Cents): (r: DiscountCheck)
    ensures r.QueryRejected? <==> QueryViolations(q, products) != {}
    ensures r.QueryRejected? ==> r.params == QueryViolations(q, products)
    ensures r.NotFound? <==>
      QueryViolations(q, products) == {} && forall i :: 0 <= i < |rows| ==> rows[i].code != q.code
    ensures r.NotFound? ==> r.message == NotFoundMessage
    ensures r.Invalid? ==> r.message == NeedsProductMessage || r.message == NotApplicableMessage
    ensures r.Invalid? && r.message == NeedsProductMessage <==>
      QueryViolations(q, products) == {} && FirstWithCode(rows, q.code).Some? &&
      rows[FirstWithCode(rows, q.code).value].scope == "product" && TargetProduct(q, products).None?
    ensures r.Invalid? && r.message == NotApplicableMessage <==>
      QueryViolations(q, products) == {} && FirstWithCode(rows, q.code).Some? &&
      !(rows[FirstWithCode(rows, q.code).value].scope == "product" && TargetProduct(q, products).None?) &&
      !isApplicable(rows[FirstWithCode(rows, q.code).value], q.amount, q.quantity, TargetProduct(q, products))
    ensures r.Applicable? <==>
      QueryViolations(q, products) == {} && FirstWithCode(rows, q.code).Some? &&
      !(rows[FirstWithCode(rows, q.code).value].scope == "product" && TargetProduct(q, products).None?) &&
      isApplicable(rows[FirstWithCode(rows, q.code).value], q.amount, q.quantity, TargetProduct(q, products))
    ensures r.Applicable? ==>
      && r.discount == rows[FirstWithCode(rows, q.code).value]
      && r.discount.code == q.code
      && r.scope == r.discount.scope
      && (r.scope == "product" ==> r.applicableTo.Some?)
      && isApplicable(r.discount, q.amount, q.quantity, r.applicableTo)
      && r.discountAmount == calculate(r.discount, q.amount)
      && r.applicableTo == TargetProduct(q, products)
  {
    var errs := QueryViolations(q, products);
    if errs != {} then QueryRejected(errs)
    else match FirstWithCode(rows, q.code)
      case None => NotFound(NotFoundMessage)
      case Some(k) =>
        var discount := rows[k];
        var product := TargetProduct(q, products);
        if discount.scope == "product" && product.None? then Invalid(NeedsProductMessage)
        else if !isApplicable(discount, q.amount, q.quantity, product) then Invalid(NotApplicableMessage)
        else Applicable(discount, calculate(discount, q.amount), discount.scope, product)
  }

  /**
   * A product-scoped code checked without a product is refused before the
   * discount's own applicability rule is consulted: the outcome is the same
   * whatever that rule says.
   */
  lemma ProductScopeWithoutProductIgnoresRule(
    q: DiscountQuery, rows: seq<Discount>, products: map<nat, Product>,
    rule1: (Discount, Cents, int, Option<nat>) -> bool,
    rule2: (Discount, Cents, int, Option<nat>) -> bool,
    calculate: (Discount, Cents) -> Cents)
    requires QueryViolations(q, products) == {}
    requires FirstWithCode(rows, q.code).Some?
    requires rows[FirstWithCode(rows, q.code).value].scope == "product"
    requires TargetProduct(q, products).None?
    ensures ValidateDiscount(q, rows, products, rule1, calculate)
         == ValidateDiscount(q, rows, products, rule2, calculate)
         == Invalid(NeedsProductMessage)
  {
  }

  /** A found code whose applicability rule fails is refused as not applicable. */
  lemma RuleFailureIsNotApplicable(
    q: DiscountQuery, rows: seq<Discount>, products: map<nat, Product>,
    isApplicable: (Discount, Cents, int, Option<nat>) -> bool,
    calculate: (Discount, Cents) -> Cents)
    requires QueryViolations(q, products) == {}
    requires FirstWithCode(rows, q.code).Some?
    requires !isApplicable(rows[FirstWithCode(rows, q.code).value], q.amount, q.quantity, TargetProduct(q, products))
    ensures ValidateDiscount(q, rows, products, isApplicable, calculate).Invalid?
  {
  }

  // ---------------------------------------------------------------------
  // posOrders
  // ---------------------------------------------------------------------

  /** One cart line as the terminal submits it. */
  datatype CartLine = CartLine(
    productId: nat,
    quantity: int,
    price: Cents,
    discountId: Option<nat>,
    discountAmount: Option<Cents>)

  /** The body of `POST /pos-orders`; all totals are computed by the terminal. */
  datatype Cart = Cart(
    items: seq<CartLine>,
    subtotal: Cents,
    productDiscounts: Cents,
    generalDiscount: Cents,
    generalDiscountId: Option<nat>,
    totalAmount: Cents,
    customerId: Option<nat>,
    paymentMethod: Option<string>,
    amountTendered: Option<Cents>,
    changeDue: Option<Cents>)

  /** A cart field that broke its validation rule; line fields carry the line's index. */
  datatype CartField =
    | ItemsField
    | LineProductField(line: nat)
    | LineQuantityField(line: nat)
    | LinePriceField(line: nat)
    | LineDiscountIdField(line: nat)
    | LineDiscountAmountField(line: nat)
    | SubtotalField
    | ProductDiscountsField
    | GeneralDiscountField
    | GeneralDiscountIdField
    | TotalAmountField

  /** Every rule on one line holds: known product, quantity at least 1, no negative price or discount. */
  predicate LineAcceptable(l: CartLine, productIds: set<nat>, discountIds: set<nat>) {
    && l.productId in productIds
    && l.quantity >= 1
    && l.price >= 0
    && (l.discountId.Some? ==> l.discountId.value in discountIds)
    && (l.discountAmount.Some? ==> l.discountAmount.value >= 0)
  }

  /** Every rule of the checkout validator holds of the cart. */
  predicate CartAcceptable(c: Cart, productIds: set<nat>, discountIds: set<nat>) {
    && |c.items| > 0
    && (forall i :: 0 <= i < |c.items| ==> LineAcceptable(c.items[i], productIds, discountIds))
    && c.subtotal >= 0
    && c.productDiscounts >= 0
    && c.generalDiscount >= 0
    && (c.generalDiscountId.Some? ==> c.generalDiscountId.value in discountIds)
    && c.totalAmount >= 0
  }

  /** The fields line `i` breaks. */
  function LineViolations(i: nat, l: CartLine, productIds: set<nat>, discountIds: set<nat>): (errs: set<CartField>)
    ensures errs == {} <==> LineAcceptable(l, productIds, discountIds)
  {
    (if l.productId in productIds then {} else {LineProductField(i)})
    + (if l.quantity >= 1 then {} else {LineQuantityField(i)})
    + (if l.price >= 0 then {} else {LinePriceField(i)})
    + (if l.discountId.Some? && l.discountId.value !in discountIds then {LineDiscountIdField(i)} else {})
    + (if l.discountAmount.Some? && l.discountAmount.value < 0 then {LineDiscountAmountField(i)} else {})
  }

  /** The fields the first `n` lines break. */
  function ItemViolations(lines: seq<CartLine>, n: nat, productIds: set<nat>, discountIds: set<nat>): (errs: set<CartField>)
    requires n <= |lines|
    ensures errs == {} <==> forall i :: 0 <= i < n ==> LineAcceptable(lines[i], productIds, discountIds)
  {
    if n == 0 then {}
    else ItemViolations(lines, n - 1, productIds, discountIds) + LineViolations(n - 1, lines[n - 1], productIds, discountIds)
  }

  /**
   * The fields the checkout validator reports, all rules checked at once;
   * an empty `items` array fails `required`.
   */
  function CartViolations(c: Cart, productIds: set<nat>, discountIds: set<nat>): (errs: set<CartField>)
    ensures errs == {} <==> CartAcceptable(c, productIds, discountIds)
  {
    (if |c.items| > 0 then {} else {ItemsField})
    + ItemViolations(c.items, |c.items|, productIds, discountIds)
    + (if c.subtotal >= 0 then {} else {SubtotalField})
    + (if c.productDiscounts >= 0 then {} else {ProductDiscountsField})
    + (if c.generalDiscount >= 0 then {} else {GeneralDiscountField})
    + (if c.generalDiscountId.Some? && c.generalDiscountId.value !in discountIds then {GeneralDiscountIdField} else {})
    + (if c.totalAmount >= 0 then {} else {TotalAmountField})
  }

  /** The order item written for a cart line; its total is not clamped at zero. */
  function ItemFor(l: CartLine): (it: OrderItem)
    ensures it.productId == l.productId && it.quantity == l.quantity && it.unitPrice == l.price
    ensures it.discountId == l.discountId && it.discountAmount == l.discountAmount.GetOr(0)
    ensures it.total == it.quantity * it.unitPrice - it.discountAmount
  {
    var discount := l.discountAmount.GetOr(0);
    OrderItem(l.productId, l.quantity, l.price, l.discountId, discount, l.quantity * l.price - discount)
  }

  /** The items written for a sequence of lines, in submission order. */
  function ItemsFor(lines: seq<CartLine>): (items: seq<OrderItem>)
    ensures |items| == |lines|
    ensures forall i :: 0 <= i < |lines| ==> items[i] == ItemFor(lines[i])
  {
    if lines == [] then []
    else ItemsFor(lines[..|lines| - 1]) + [ItemFor(lines[|lines| - 1])]
  }

  /** The order header written for a cart, before its items: the terminal's totals, status completed. */
  function OrderHeader(c: Cart, userId: Option<nat>): (o: Order)
    ensures o.status == Completed && o.items == [] && o.userId == userId && o.customerId == c.customerId
    ensures o.subtotal == c.subtotal && o.productDiscounts == c.productDiscounts
    ensures o.generalDiscount == c.generalDiscount && o.generalDiscountId == c.generalDiscountId
    ensures o.paymentMethod == c.paymentMethod && o.amountTendered == c.amountTendered
    ensures o.changeDue == c.changeDue && o.total == c.totalAmount
  {
    Order(userId, c.customerId, c.subtotal, c.productDiscounts, c.generalDiscount, c.generalDiscountId,
          c.paymentMethod, c.amountTendered, c.changeDue, c.totalAmount, Completed, [])
  }

  /** The order a successful checkout records. */
  function PlacedOrder(c: Cart, userId: Option<nat>): (o: Order)
    ensures o.status == Completed && o.userId == userId && o.customerId == c.customerId
    ensures o.subtotal == c.subtotal && o.productDiscounts == c.productDiscounts
    ensures o.generalDiscount == c.generalDiscount && o.generalDiscountId == c.generalDiscountId
    ensures o.total == c.totalAmount
    ensures |o.items| == |c.items|
    ensures forall i :: 0 <= i < |c.items| ==>
      o.items[i].productId == c.items[i].productId && o.items[i].quantity == c.items[i].quantity
      && o.items[i].unitPrice == c.items[i].price && o.items[i].discountId == c.items[i].discountId
      && o.items[i].discountAmount == c.items[i].discountAmount.GetOr(0)
      && o.items[i].total == c.items[i].quantity * c.items[i].price - c.items[i].discountAmount.GetOr(0)
  {
    OrderHeader(c, userId).(items := ItemsFor(c.items))
  }

  /**
   * The stock after `Product::where('id', …)->decrement('quantity', …)` for one
   * line: a soft-deleted or missing row is not touched, and nothing stops the
   * quantity from going below zero.
   */
  function DecrementOne(products: map<nat, Product>, l: CartLine): (after: map<nat, Product>)
    ensures after.Keys == products.Keys
    ensures l.productId in products ==>
      after[l.productId] == products[l.productId].(quantity :=
        products[l.productId].quantity - (if products[l.productId].trashed then 0 else l.quantity))
  {
    if l.productId in products && !products[l.productId].trashed
    then products[l.productId := products[l.productId].(quantity := products[l.productId].quantity - l.quantity)]
    else products
  }

  /** One line's decrement leaves every other product's row as it was. */
  lemma DecrementOneTouchesOnlyItsProduct(products: map<nat, Product>, l: CartLine, id: nat)
    requires id in products && id != l.productId
    ensures DecrementOne(products, l)[id] == products[id]
  {
  }

  /** The stock after the decrements of all the lines, in order. */
  function Decremented(products: map<nat, Product>, lines: seq<CartLine>): (after: map<nat, Product>)
    ensures after.Keys == products.Keys
  {
    if lines == [] then products
    else DecrementOne(Decremented(products, lines[..|lines| - 1]), lines[|lines| - 1])
  }

  /** The total quantity of product `id` over the lines. */
  function QuantityOrdered(lines: seq<CartLine>, id: nat): int {
    if lines == [] then 0
    else QuantityOrdered(lines[..|lines| - 1], id)
         + (if lines[|lines| - 1].productId == id then lines[|lines| - 1].quantity else 0)
  }

  /**
   * Stock conservation: after the decrements, every product's quantity is its
   * old quantity minus what the lines ordered of it (soft-deleted rows keep
   * theirs); no product appears or disappears and no other column changes.
   */
  lemma {:induction false} StockConservation(products: map<nat, Product>, lines: seq<CartLine>, id: nat)
    ensures Decremented(products, lines).Keys == products.Keys
    ensures id in products ==>
      Decremented(products, lines)[id] ==
        products[id].(quantity := products[id].quantity - (if products[id].trashed then 0 else QuantityOrdered(lines, id)))
  {
    if lines != [] {
      StockConservation(products, lines[..|lines| - 1], id);
    }
  }

  /** A product no line names is ordered in quantity zero. */
  lemma {:induction false} UnorderedIsZero(lines: seq<CartLine>, id: nat)
    requires forall i :: 0 <= i < |lines| ==> lines[i].productId != id
    ensures QuantityOrdered(lines, id) == 0
  {
    if lines != [] {
      UnorderedIsZero(lines[..|lines| - 1], id);
    }
  }

  /** With every line's quantity at least 1, a product is ordered at least as often as a line names it. */
  lemma {:induction false} OrderedAtLeastOne(lines: seq<CartLine>, id: nat)
    requires forall i :: 0 <= i < |lines| ==> lines[i].quantity >= 1
    ensures QuantityOrdered(lines, id) >= 0
    ensures (exists i :: 0 <= i < |lines| && lines[i].productId == id) ==> QuantityOrdered(lines, id) >= 1
  {
    if lines != [] {
      var init := lines[..|lines| - 1];
      OrderedAtLeastOne(init, id);
      if exists i :: 0 <= i < |lines| && lines[i].productId == id {
        var i :| 0 <= i < |lines| && lines[i].productId == id;
        if i < |lines| - 1 {
          assert init[i].productId == id;
        }
      }
    }
  }

  /** Products no line names keep their row unchanged. */
  lemma UntouchedProductsUnchanged(products: map<nat, Product>, lines: seq<CartLine>, id: nat)
    requires id in products
    requires forall i :: 0 <= i < |lines| ==> lines[i].productId != id
    ensures id in Decremented(products, lines) && Decremented(products, lines)[id] == products[id]
  {
    StockConservation(products, lines, id);
    UnorderedIsZero(lines, id);
  }

  /**
   * A checkout never adds a product to the terminal's list, and a product
   * whose whole stock the cart takes leaves it.
   */
  lemma ListingAfterCheckout(products: map<nat, Product>, lines: seq<CartLine>)
    requires forall i :: 0 <= i < |lines| ==> lines[i].quantity >= 1
    ensures PosProducts(Decremented(products, lines)) <= PosProducts(products)
    ensures forall id :: id in products && QuantityOrdered(lines, id) >= products[id].quantity ==>
      id !in PosProducts(Decremented(products, lines))
  {
    forall id | id in PosProducts(Decremented(products, lines)) ensures id in PosProducts(products) {
      StockConservation(products, lines, id);
      OrderedAtLeastOne(lines, id);
    }
    forall id | id in products && QuantityOrdered(lines, id) >= products[id].quantity
      ensures id !in PosProducts(Decremented(products, lines))
    {
      StockConservation(products, lines, id);
    }
  }

  /**
   * A database step of the checkout that may throw: the writes inside the
   * transaction, the commit, and the reload of the order's items after it.
   */
  datatype WriteStep = InsertOrder | InsertItem(line: nat) | DecrementStock(line: nat) | Commit | LoadItems

  /** Whether a checkout of `n` lines gets as far as the write `step`. */
  predicate Reached(step: WriteStep, n: nat) {
    match step
    case InsertOrder => true
    case InsertItem(k) => k < n
    case DecrementStock(k) => k < n
    case Commit => true
    case LoadItems => true
  }

  /** The outcome of `posOrders`. */
  datatype CheckoutResult =
    | Placed(order: Order)
    | CartRejected(fields: set<CartField>)
    | RolledBack(failedAt: WriteStep)
    | FailedAfterCommit

  /** The products and orders tables the checkout writes. */
  class Shop {
    var products: map<nat, Product>
    var orders: seq<Order>

    constructor (products: map<nat, Product>)
      ensures this.products == products && orders == []
    {
      this.products := products;
      orders := [];
    }

    /**
     * `posOrders`: validate the cart, then in one transaction insert the
     * order, and for each line insert its item and decrement its product's
     * stock. `fault` is the first write the database refuses, if any; on it
     * the transaction is rolled back and both tables are as before.
     */
    method PosOrders(cart: Cart, userId: Option<nat>, discountIds: set<nat>, fault: Option<WriteStep>)
      returns (r: CheckoutResult)
      modifies this
      ensures r.CartRejected? <==> CartViolations(cart, old(products).Keys, discountIds) != {}
      ensures CartViolations(cart, old(products).Keys, discountIds) != {} ==>
        r == CartRejected(CartViolations(cart, old(products).Keys, discountIds))
      ensures CartAcceptable(cart, old(products).Keys, discountIds) && fault.Some? && fault.value != LoadItems
              && Reached(fault.value, |cart.items|)
        ==> r == RolledBack(fault.value)
      ensures r.FailedAfterCommit? <==> CartAcceptable(cart, old(products).Keys, discountIds) && fault == Some(LoadItems)
      ensures r.Placed? <==>
        CartAcceptable(cart, old(products).Keys, discountIds) && !(fault.Some? && Reached(fault.value, |cart.items|))
      ensures r.RolledBack? ==> fault == Some(r.failedAt) && Reached(r.failedAt, |cart.items|) && r.failedAt != LoadItems
      ensures r.Placed? ==> r.order == PlacedOrder(cart, userId)
      ensures r.Placed? || r.FailedAfterCommit? ==>
        orders == old(orders) + [PlacedOrder(cart, userId)] &&
        products == Decremented(old(products), cart.items)
      ensures r.CartRejected? || r.RolledBack? ==> products == old(products) && orders == old(orders)
    {
      var errs := CartViolations(cart, products.Keys, discountIds);
      if errs != {} {
        return CartRejected(errs);
      }
      r := Transaction(cart, userId, fault);
    }

    /**
     * The `try` block: the writes between `DB::beginTransaction()` and
     * `DB::commit()` (the order, then each line's item and stock decrement),
     * rolled back at the first refused write or a refused commit; then the
     * reload of the order's items. A failure of that reload is caught after
     * the commit, so the rollback has nothing to undo: the checkout is
     * reported as failed while the order and the decrements stay committed.
     */
    method Transaction(cart: Cart, userId: Option<nat>, fault: Option<WriteStep>) returns (r: CheckoutResult)
      modifies this
      ensures r.Placed? <==> !(fault.Some? && Reached(fault.value, |cart.items|))
      ensures r.FailedAfterCommit? <==> fault == Some(LoadItems)
      ensures fault.Some? && Reached(fault.value, |cart.items|) && fault.value != LoadItems ==> r == RolledBack(fault.value)
      ensures r.Placed? ==> r.order == PlacedOrder(cart, userId)
      ensures r.Placed? || r.FailedAfterCommit? ==>
        orders == old(orders) + [PlacedOrder(cart, userId)] &&
        products == Decremented(old(products), cart.items)
      ensures r.RolledBack? ==> products == old(products) && orders == old(orders)
    {
      var savedProducts, savedOrders := products, orders;
      if fault == Some(InsertOrder) {
        products, orders := savedProducts, savedOrders;
        return RolledBack(InsertOrder);
      }
      var order := OrderHeader(cart, userId);
      orders := orders + [order];
      var i := 0;
      while i < |cart.items|
        invariant 0 <= i <= |cart.items|
        invariant order == OrderHeader(cart, userId).(items := ItemsFor(cart.items[..i]))
        invariant orders == savedOrders + [order]
        invariant products == Decremented(savedProducts, cart.items[..i])
        invariant forall k :: 0 <= k < i ==> fault != Some(InsertItem(k)) && fault != Some(DecrementStock(k))
      {
        var line := cart.items[i];
        assert cart.items[..i + 1][..i] == cart.items[..i];
        if fault == Some(InsertItem(i)) {
          products, orders := savedProducts, savedOrders;
          return RolledBack(InsertItem(i));
        }
        order := order.(items := order.items + [ItemFor(line)]);
        orders := savedOrders + [order];
        if fault == Some(DecrementStock(i)) {
          products, orders := savedProducts, savedOrders;
          return RolledBack(DecrementStock(i));
        }
        products := DecrementOne(products, line);
        i := i + 1;
      }
      assert cart.items[..i] == cart.items;
      if fault == Some(Commit) {
        products, orders := savedProducts, savedOrders;
        return RolledBack(Commit);
      }
      // DB::commit(): from here on the rollback in the `catch` undoes nothing.
      if fault == Some(LoadItems) {
        return FailedAfterCommit;
      }
      assert !(fault.Some? && Reached(fault.value, |cart.items|)) by {
        if fault.Some? {
          match fault.value
          case InsertOrder =>
          case InsertItem(k) => assert !(k < i);
          case DecrementStock(k) => assert !(k < i);
          case Commit =>
          case LoadItems =>
        }
      }
      r := Placed(order);
    }
  }

  /**
   * The worked example: two units at 10.00 with a 2.00 line discount give
   * one item totalling 18.00, an order total of 18.00, and two units fewer
   * in stock.
   */
  lemma WorkedExample(p: Product)
    requires !p.trashed
    ensures var cart := Cart([CartLine(1, 2, 1000, None, Some(200))], 2000, 200, 0, None, 1800, None, None, None, None);
      && CartAcceptable(cart, {1}, {})
      && PlacedOrder(cart, None).total == 1800
      && PlacedOrder(cart, None).items == [OrderItem(1, 2, 1000, None, 200, 1800)]
      && Decremented(map[1 := p], cart.items) == map[1 := p.(quantity := p.quantity - 2)]
  {
    var cart := Cart([CartLine(1, 2, 1000, None, Some(200))], 2000, 200, 0, None, 1800, None, None, None, None);
    assert cart.items[..0] == [];
  }

  /**
   * Nothing guards against overselling or negative line totals: a cart for
   * three units of a product with one in stock, with a line discount larger
   * than the line, is accepted and leaves stock -2 and a negative item total.
   */
  lemma NoOversellingOrClampGuard(p: Product)
    requires !p.trashed && p.quantity == 1
    ensures var cart := Cart([CartLine(1, 3, 100, None, Some(500))], 300, 500, 0, None, 0, None, None, None, None);
      && CartAcceptable(cart, {1}, {})
      && Decremented(map[1 := p], cart.items) == map[1 := p.(quantity := -2)]
      && PlacedOrder(cart, None).items[0].total == -200
  {
    var cart := Cart([CartLine(1, 3, 100, None, Some(500))], 300, 500, 0, None, 0, None, None, None, None);
    assert cart.items[..0] == [];
  }

  /**
   * The recorded totals are the terminal's, not recomputed: an accepted cart
   * may record a total that differs from subtotal minus discounts.
   */
  lemma TotalsTakenAsSubmitted()
    ensures var cart := Cart([CartLine(1, 1, 1000, None, None)], 1000, 0, 0, None, 1, None, None, None, None);
      && CartAcceptable(cart, {1}, {})
      && PlacedOrder(cart, None).total != PlacedOrder(cart, None).subtotal
         - PlacedOrder(cart, None).productDiscounts - PlacedOrder(cart, None).generalDiscount
  {
  }
}
