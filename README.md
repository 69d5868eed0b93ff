# rpg-pos point-of-sale core in Dafny

This project models the server-side core of the rpg-pos point-of-sale application and proves properties of it:

- **Checkout (`posOrders`).** The cart is validated first. Then, in one transaction, the order header is written with the terminal's own totals and status `completed`. For each cart line, in order, one order item is written (line total `quantity × price − discount_amount`) and the product's stock is decremented by the line quantity. Any failing write, or a failing commit, rolls the whole transaction back. After the commit the order's items are reloaded for the response; if that read fails, the error is caught after the commit, so the checkout is reported as failed while the order and the stock decrements stay committed.
- **Discount-code check (`validateDiscount`).** An ordered chain of early returns: query rejected, code not found, product-scoped code without a product, not applicable, applicable with an amount.
- **Terminal product list (`posProducts`).** The active, in-stock products.
- **Discount management (`DiscountController::store`, `update`, `eligibleProducts`).** Field validation, the stored row, and how the discount's product associations are synced or detached.
- **The `OrderStatus` and `DiscountType` enumerations.** Their string codecs, labels, colours and case predicates.

Modules:

- `Optional`: the `Option` type (PHP `null`).
- `OrderStatusEnum`, `DiscountTypeEnum`: the two enumerations.
- `Schema`: the persisted rows. Money is `Cents`, an integer number of cents, matching the `decimal(…, 2)` columns.
- `DiscountController`: discount validation, the pivot-table operations and the class `DiscountTable`, whose methods `Store` and `Update` change the discounts table and the pivot table in place.
- `PosController`: `PosProducts`, `ValidateDiscount`, cart validation, the specification of the checkout (`PlacedOrder`, `Decremented`), and the class `Shop`, whose method `PosOrders` runs the transaction over the products map and the orders sequence.

How the model handles the parts it cannot see:

- The discount record's own `isApplicable` and `calculateDiscount` are not part of this model. `ValidateDiscount` takes them as function parameters, so what is proved holds whatever they compute.
- A database write that throws inside the checkout is represented by the parameter `fault`: the first write the database refuses, if any.
- The authenticated user's id is a parameter.

Points where the code decides the behaviour:

- The checkout trusts the terminal. Prices, line discounts and all totals are stored as submitted. Nothing re-checks discounts, counts their usage, guards against overselling, locks rows or recomputes totals. The model has none of these either, and the lemmas `NoOversellingOrClampGuard` and `TotalsTakenAsSubmitted` exhibit the consequences.
- The `catch` of the checkout also covers the reload of the order's items after `DB::commit()`. A failure there is reported as "Error creating order" although the order, its items and every stock decrement are already committed; a terminal that resubmits the cart records the sale twice. The model has this outcome, `FailedAfterCommit`.
- The `exists:products,id` rule looks at the table directly, so a soft-deleted product passes validation. `Product::where(…)->decrement(…)`, `Product::find` and `Product::all` go through the soft-delete scope and skip such a row. The model follows the code: a soft-deleted product's line is written, but its stock is not decremented.
- `items` is `required`, and the framework refuses an empty array there. An empty cart is therefore rejected.

## Model

| member | source | states |
|---|---|---|
| `OrderStatusEnum.OrderStatus.Label` | app/Enums/OrderStatus.php:13-22 | every status has a label, and the label is its backing value with the first letter capitalised |
| `OrderStatusEnum.OrderStatus.Color` | app/Enums/OrderStatus.php:61-70 | every status has a colour, and it is a `bg-…` badge class |
| `OrderStatusEnum.Cases` | app/Enums/OrderStatus.php:7-11 | five cases, pairwise distinct (with `CasesComplete`, exactly the enumeration's cases) |
| `OrderStatusEnum.CasesComplete` | app/Enums/OrderStatus.php:7-11 | every status is among the listed cases |
| `OrderStatusEnum.Values` | app/Enums/OrderStatus.php:72-75 | `values()`, the backing value `OrderStatus.Value` of each case in declaration order, is exactly pending, processing, completed, cancelled, refunded, pairwise distinct |
| `OrderStatusEnum.ToSelectArray` | app/Enums/OrderStatus.php:49-59 | five entries; entry i maps case i's value to case i's label |
| `OrderStatusEnum.FromValue` | app/Enums/OrderStatus.php:77-87 | decodes exactly the five backing values, to the status with that value; every other string gives null |
| `OrderStatusEnum.FromValueOfValue` | app/Enums/OrderStatus.php:77-87 | round trip: decoding a status's value gives the status back |
| `OrderStatusEnum.ExactlyOnePredicate` | app/Enums/OrderStatus.php:24-47 | exactly one of `OrderStatus.IsPending`, `IsProcessing`, `IsCompleted`, `IsCancelled`, `IsRefunded` holds for each status |
| `OrderStatusEnum.LabelsAndColorsDistinct` | app/Enums/OrderStatus.php:13-22 | distinct statuses have distinct labels and colours |
| `DiscountTypeEnum.DiscountType.Label` | app/Enums/DiscountType.php:11-18 | every type has a non-empty label |
| `DiscountTypeEnum.Cases` | app/Enums/DiscountType.php:7-9 | three cases, pairwise distinct (with `CasesComplete`, exactly the enumeration's cases) |
| `DiscountTypeEnum.CasesComplete` | app/Enums/DiscountType.php:7-9 | every type is among the listed cases |
| `DiscountTypeEnum.Values` | app/Enums/DiscountType.php:44-47 | `values()`, the backing value `DiscountType.Value` of each case in declaration order, is exactly percentage, fixed, buy_x_get_y, pairwise distinct |
| `DiscountTypeEnum.ToSelectArray` | app/Enums/DiscountType.php:35-42 | three entries; entry i maps case i's value to case i's label |
| `DiscountTypeEnum.FromValue` | app/Enums/DiscountType.php:49-57 | decodes exactly the three backing values, to the type with that value; every other string gives null |
| `DiscountTypeEnum.FromValueOfValue` | app/Enums/DiscountType.php:49-57 | round trip: decoding a type's value gives the type back |
| `DiscountTypeEnum.ExactlyOnePredicate` | app/Enums/DiscountType.php:20-33 | exactly one of `DiscountType.IsPercentageBased`, `IsFixedAmount`, `IsBuyXGetY` holds for each type |
| `DiscountTypeEnum.LabelsDistinct` | app/Enums/DiscountType.php:11-18 | distinct types have distinct labels |
| `DiscountController.TypeRuleIsEnumValues` | app/Http/Controllers/DiscountController.php:33 | the validator's `type` rule accepts exactly the enumeration's `values()`, which are exactly the strings `fromValue` decodes |
| `DiscountController.Violations` | app/Http/Controllers/DiscountController.php:30-45 | a request is rejected with some field iff it breaks a rule: name 1–255 characters, code present and unused by any other row, type and scope among the allowed strings, value ≥ 0, end after start, min_quantity ≥ 1, min_amount ≥ 0 and usage_limit ≥ 1 when present, listed products exist |
| `DiscountController.OwnCodeNotTaken` | app/Http/Controllers/DiscountController.php:100 | on update the row's own code does not count as taken |
| `DiscountController.StoredDiscount` | app/Http/Controllers/DiscountController.php:47-60 | the created row takes the request's name, code, type, value, dates and scope; min_quantity, min_amount and usage_limit are the given value, or null when left out or null; apply_to_all_products is the given flag or false, is_active the given flag or true |
| `DiscountController.Field.Over` | app/Http/Controllers/DiscountController.php:116 | a mass update keeps a column the request leaves out, clears it on null and sets it on a value |
| `DiscountController.Patched` | app/Http/Controllers/DiscountController.php:116 | the updated row keeps its id and takes the request's name, code, type, value, dates and scope; an optional field sent as null is cleared, one sent with a value is set, one left out keeps its stored value; a given flag is written, a left-out flag is kept |
| `DiscountController.Detached` | app/Http/Controllers/DiscountController.php:121 | after `detach()` the discount has no associated products and every other discount's associations are unchanged |
| `DiscountController.Synced` | app/Http/Controllers/DiscountController.php:68 | after `sync(ids)` the discount's associations are exactly `ids` and every other discount's are unchanged |
| `DiscountController.StoreLinks` | app/Http/Controllers/DiscountController.php:63-69 | a new discount's associations are the listed ids when it is product-scoped and not for all products, and none otherwise |
| `DiscountController.UpdateLinks` | app/Http/Controllers/DiscountController.php:119-128 | after an update the associations are cleared for a general scope or for all products; for product scope they become the listed ids, or stay as they were when no ids are listed |
| `DiscountController.UpdateLinksIdempotent` | app/Http/Controllers/DiscountController.php:119-128 | applying the same update twice leaves the same associations as applying it once |
| `DiscountController.UpdateOfUnlinkedMatchesStore` | app/Http/Controllers/DiscountController.php:63-69 | on a discount without associations, the update rules give the same set as the create rules |
| `DiscountController.UpdateLinksBounded` | app/Http/Controllers/DiscountController.php:119-128 | an update keeps the associations or narrows them to the listed ids; a general scope always clears them |
| `DiscountController.EligibleProducts` | app/Http/Controllers/DiscountController.php:133-143 | a product is eligible iff it exists, is not soft-deleted, and, when the discount is product-scoped and not for all products, is associated with it |
| `DiscountController.StoredWithoutProductsEligibleForNone` | app/Http/Controllers/DiscountController.php:63-69 | a product-scoped discount created without product ids and not for all products is eligible for no product |
| `DiscountController.IndexOfId` | app/Http/Controllers/DiscountController.php:96 | finds the row with the given primary key, or reports that none exists |
| `DiscountController.DiscountTable.Store` | app/Http/Controllers/DiscountController.php:27-77 | a rejected request changes nothing; an accepted one appends the stored row with the next id; its associations become the listed ids exactly when scope is product, not for all products and ids are given, and no other discount's associations change; distinct ids and distinct codes are preserved |
| `DiscountController.DiscountTable.Update` | app/Http/Controllers/DiscountController.php:96-131 | the result is missing iff no row has the id, and then nothing changes; a rejected request changes nothing; a found row with a valid request is always updated: the row is patched in place and its associations are cleared (general scope, or for all products), replaced by the listed ids (product scope with ids), or kept; other discounts are untouched; distinct ids and codes are preserved |
| `PosController.PosProducts` | app/Http/Controllers/PosController.php:19-24 | the terminal lists exactly the products that are active, have stock above zero and are not soft-deleted |
| `PosController.QueryViolations` | app/Http/Controllers/PosController.php:29-34 | the check's query is rejected iff the code is empty, amount or quantity is negative, or a given product id names no row |
| `PosController.FirstWithCode` | app/Http/Controllers/PosController.php:41-43 | finds the first discount row with the code, or reports that no row has it |
| `PosController.TargetProduct` | app/Http/Controllers/PosController.php:52 | the product the check is made for is the given id when it is non-zero and names a row that is not soft-deleted, and none otherwise |
| `PosController.ValidateDiscount` | app/Http/Controllers/PosController.php:27-79 | in order: query rejected iff invalid; not found iff no row has the code; "must be applied to a specific product" iff the found discount is product-scoped and there is no product; "not applicable" iff otherwise `isApplicable` fails; applicable iff otherwise `isApplicable` holds; an applicable result carries the found discount, has amount `calculateDiscount(amount)`, has the discount's scope, and has `applicable_to` set iff a product was found |
| `PosController.ProductScopeWithoutProductIgnoresRule` | app/Http/Controllers/PosController.php:55-60 | a product-scoped code without a product is refused whatever `isApplicable` would say, so the rule is not consulted |
| `PosController.RuleFailureIsNotApplicable` | app/Http/Controllers/PosController.php:62-67 | a found code whose `isApplicable` fails is never reported applicable |
| `PosController.LineViolations` | app/Http/Controllers/PosController.php:94-98 | a cart line is rejected iff its product is unknown, quantity < 1, price < 0, its discount id is unknown, or its discount amount < 0 |
| `PosController.ItemViolations` | app/Http/Controllers/PosController.php:93-98 | the lines are rejected iff some line breaks a rule |
| `PosController.CartViolations` | app/Http/Controllers/PosController.php:92-104 | a cart is rejected iff items is empty, some line is rejected, a submitted total is negative, or the general discount id is unknown |
| `PosController.ItemFor` | app/Http/Controllers/PosController.php:124-131 | an item stores the line's product, quantity, price as unit price and discount id; the discount amount defaults to 0; the total is quantity × unit price − discount amount, unclamped |
| `PosController.ItemsFor` | app/Http/Controllers/PosController.php:123-131 | one item per line, in submission order |
| `PosController.OrderHeader` | app/Http/Controllers/PosController.php:109-121 | the order header stores the user, the customer, the submitted subtotal, discounts, general discount id, payment method, tendered amount, change and total, with status completed and no items yet |
| `PosController.PlacedOrder` | app/Http/Controllers/PosController.php:109-131 | the order keeps the submitted subtotal, product discounts, general discount and its id, and total unchanged; status is completed; one item per line in order, each with the exact line-total formula |
| `PosController.DecrementOne` | app/Http/Controllers/PosController.php:133-136 | one line's decrement keeps the set of products and lowers the named product's stock by the line quantity, unless that row is soft-deleted |
| `PosController.DecrementOneTouchesOnlyItsProduct` | app/Http/Controllers/PosController.php:133-136 | one line's decrement leaves every other product's row as it was |
| `PosController.Decremented` | app/Http/Controllers/PosController.php:133-136 | the decrements of all lines keep the set of products |
| `PosController.StockConservation` | app/Http/Controllers/PosController.php:133-136 | after the decrements each product's stock is its old stock minus the total quantity the lines order of it; soft-deleted rows are untouched; no product appears or disappears; no lower bound |
| `PosController.UntouchedProductsUnchanged` | app/Http/Controllers/PosController.php:133-136 | products that no line names keep their row |
| `PosController.ListingAfterCheckout` | app/Http/Controllers/PosController.php:19-24 | the terminal lists only active, in-stock products; a checkout never adds one and removes every product whose whole stock it takes |
| `PosController.Shop.PosOrders` | app/Http/Controllers/PosController.php:90-151 | the cart is rejected iff it breaks a rule, and then nothing is written and its fields are reported; on an acceptable cart a refused write or commit reached by the checkout is reported as rolled back at that step, leaving products and orders as before; a refused reload of the items is reported as `FailedAfterCommit`, and then, as on success, exactly one order, `PlacedOrder` of the cart, is appended and the stock becomes `Decremented` by the cart's lines; success iff the cart is acceptable and no refused step is reached |
| `PosController.Shop.Transaction` | app/Http/Controllers/PosController.php:106-149 | success iff no refused step is reached; a refused write or commit rolls back both tables and is reported at that step; a refused reload after the commit is reported as `FailedAfterCommit` iff that is the refused step; on success and on `FailedAfterCommit` the orders gain `PlacedOrder` and the stock is `Decremented` by the lines |
| `PosController.WorkedExample` | app/Http/Controllers/PosController.php:109-136 | two units at 10.00 with a 2.00 line discount give one item of 18.00, an order total of 18.00, and stock lower by 2 |
| `PosController.NoOversellingOrClampGuard` | app/Http/Controllers/PosController.php:130-135 | an accepted cart can take stock below zero and can record a negative line total |
| `PosController.TotalsTakenAsSubmitted` | app/Http/Controllers/PosController.php:112-119 | an accepted cart can record a total that differs from subtotal minus the discounts |

## Left out

- `Discount::isApplicable` and `Discount::calculateDiscount`: the Discount model is not part of this model. They are function parameters of `ValidateDiscount`, and no date, usage or clamping rule is assumed.
- `productDiscounts` and the `applicableDiscounts` relation: that relation is not defined in app/Models/Product.php, so it is foreign code.
- `posCategories`, and `index`, `show` and `destroy` of the discount controller: they are plain reads and deletes with no logic to state.
- Concurrency: transaction isolation and row locking are not modelled. The transaction is sequential and all-or-nothing.
- Database failures: any exception inside the `try` block (a constraint violation, a decimal overflow, a missing `order_number`, a failed commit, a failed reload of the items) is the `fault` parameter. What makes a step fail is not modelled.
- Not modelled: the order number, timestamps, and the ids of orders and items. Products are a map from id to row. `PosProducts` and `EligibleProducts` return ids, not rows in database order. Eager loading (`with(...)`) is not modelled.
- HTTP status codes and JSON bodies: they are reduced to the result datatypes `CheckoutResult`, `DiscountCheck`, `StoreResult` and `UpdateResult`.
- Discount value: `value` is an integer, so a fractional percentage such as 12.5, which the `numeric` rule accepts, cannot be expressed.
- Floating point: money is integer cents. PHP's `quantity * price` on decimal strings is taken as exact.
- Dates: they are instants on one integer line. The parsing done by the `date` rule is not modelled.
- Required-field checks: presence and type checks on non-string fields are not modelled; those fields are always present and well typed. The required string fields (name, code) are modelled as rejected when empty. The framework's default input trimming and empty-string-to-null conversion are middleware configuration that is not part of this model: a name or code of blanks is accepted, and a code is stored and looked up untrimmed.
- The `product_ids` key: it is passed to `update()`, and the model assumes the Discount model's fillable list drops it, since app/Models/Discount.php is not part of this model.
- Code comparison: `where('code', …)` and the `unique:discounts,code` rule compare in the database's collation, which is not part of this model; `FirstWithCode` and `CodeTaken` use exact string equality instead.
- Soft-deleted discounts: the Discount model is not part of this model, so whether its lookups skip deleted rows is not known; every discounts row is treated as live, by the code lookup, the route binding and the uniqueness rule alike.
- `usage_count`: no modelled code reads or writes it, so it is not a column of the model.
- The authenticated user: `auth()->id()` is a parameter.
- The frontend stores, router and entry point: they are HTTP plumbing, not modelled.
- `DiscountTypeEnum.DiscountType.Label`: states only that the label is non-empty, not its exact wording.
- `OrderStatusEnum.OrderStatus.Color`: states only the `bg-` prefix, not the full class string.
