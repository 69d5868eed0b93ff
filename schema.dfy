/**
 * The persisted rows the point-of-sale core reads and writes: products,
 * discounts, the discount-product pivot, orders and order items.
 */
module Schema {
  import opened Optional
  import opened OrderStatusEnum

  /** An amount of money in integer cents; the tables hold it as decimal(…, 2). */
  type Cents = int

  /**
   * A products row, as far as this core reads it: the on-hand quantity,
   * the active flag and the soft-delete marker (`deleted_at` set).
   */
  datatype Product = Product(quantity: int, isActive: bool, trashed: bool)

  /**
   * A discounts row. `kind` (the `type` column) and `scope` hold the strings
   * the validator accepted; the controllers compare them as strings.
   * Dates are instants on one time line. `value` is a percentage for a
   * percentage discount and an amount in cents otherwise.
   */
  datatype Discount = Discount(
    id: nat,
    name: string,
    code: string,
    kind: string,
    value: int,
    startDate: int,
    endDate: int,
    minQuantity: Option<int>,
    minAmount: Option<Cents>,
    usageLimit: Option<int>,
    scope: string,
    applyToAllProducts: bool,
    isActive: bool)

  /** A discount_product row: one product associated with one discount. */
  datatype Link = Link(discountId: nat, productId: nat)

  /** An order_items row. */
  datatype OrderItem = OrderItem(
    productId: nat,
    quantity: int,
    unitPrice: Cents,
    discountId: Option<nat>,
    discountAmount: Cents,
    total: Cents)

  /** An orders row together with its items, in insertion order. */
  datatype Order = Order(
    userId: Option<nat>,
    customerId: Option<nat>,
    subtotal: Cents,
    productDiscounts: Cents,
    generalDiscount: Cents,
    generalDiscountId: Option<nat>,
    paymentMethod: Option<string>,
    amountTendered: Option<Cents>,
    changeDue: Option<Cents>,
    total: Cents,
    status: OrderStatus,
    items: seq<OrderItem>)
}
