/**
 * Discount management: the validation of a create or update request, the
 * record it writes, the product associations it syncs or detaches, and the
 * products a discount is eligible for.
 */
module DiscountController {
  import opened Optional
  import opened Schema
  import DiscountTypeEnum

  /** A request field that may be left out, sent as null, or sent with a value. */
  datatype Field<T> = Absent | Null | Given(value: T)
  {
    /** The value, with absent and null both read as null (`$validated[f] ?? null`). */
    function OrNull(): (r: Option<T>)
      ensures r.Some? <==> Given?
      ensures Given? ==> r.value == value
    {
      if Given? then Some(value) else None
    }

    /**
     * The column after a mass update with this field: a field left out of the
     * request keeps the old value, a null one clears it.
     */
    function Over(current: Option<T>): (r: Option<T>)
      ensures Absent? ==> r == current
      ensures !Absent? ==> r == OrNull()
    {
      match this
      case Absent => current
      case Null => None
      case Given(v) => Some(v)
    }
  }

  /**
   * The body of a create or update request, after the framework has read it.
   * `kind` is the `type` field; dates are instants on one time line. `value`
   * is a percentage for a percentage discount and an amount in cents otherwise.
   */
  datatype DiscountRequest = DiscountRequest(
    name: string,
    code: string,
    kind: string,
    value: int,
    startDate: int,
    endDate: int,
    minQuantity: Field<int>,
    minAmount: Field<Cents>,
    usageLimit: Field<int>,
    scope: string,
    applyToAllProducts: Option<bool>,
    isActive: Option<bool>,
    productIds: Field<seq<nat>>)

  /** The strings the `type` rule accepts (`in:percentage,fixed,buy_x_get_y`). */
  const TypeRule: seq<string> := ["percentage", "fixed", "buy_x_get_y"]

  /** The strings the `scope` rule accepts (`in:product,general`). */
  const ScopeRule: seq<string> := ["product", "general"]

  /** A request field that broke its validation rule. */
  datatype InvalidField =
    | NameField | CodeField | TypeField | ValueField | EndDateField | MinQuantityField
    | ScopeField | MinAmountField | UsageLimitField | ProductIdsField

  /**
   * Whether some row other than the one with id `ignore` already uses `code`
   * (`unique:discounts,code` and, on update, `unique:discounts,code,<id>`).
   */
  predicate CodeTaken(rows: seq<Discount>, code: string, ignore: Option<nat>) {
    exists i :: 0 <= i < |rows| && rows[i].code == code && (ignore.None? || rows[i].id != ignore.value)
  }

  /** Every rule of the create and update validators holds of the request. */
  predicate MeetsRules(req: DiscountRequest, rows: seq<Discount>, ignore: Option<nat>, productIds: set<nat>) {
    && 0 < |req.name| <= 255
    && |req.code| > 0 && !CodeTaken(rows, req.code, ignore)
    && req.kind in TypeRule
    && req.value >= 0
    && req.endDate > req.startDate
    && (req.minQuantity.Given? ==> req.minQuantity.value >= 1)
    && req.scope in ScopeRule
    && (req.minAmount.Given? ==> req.minAmount.value >= 0)
    && (req.usageLimit.Given? ==> req.usageLimit.value >= 1)
    && (req.productIds.Given? ==> forall i :: 0 <= i < |req.productIds.value| ==> req.productIds.value[i] in productIds)
  }

  /** Every field a request can be rejected on. */
  const AllFields: set<InvalidField> :=
    {NameField, CodeField, TypeField, ValueField, EndDateField, MinQuantityField,
     ScopeField, MinAmountField, UsageLimitField, ProductIdsField}

  /** Whether the request breaks the rule on field `f`. */
  predicate Breaks(f: InvalidField, req: DiscountRequest, rows: seq<Discount>, ignore: Option<nat>, productIds: set<nat>) {
    match f
    case NameField => !(0 < |req.name| <= 255)
    case CodeField => |req.code| == 0 || CodeTaken(rows, req.code, ignore)
    case TypeField => req.kind !in TypeRule
    case ValueField => req.value < 0
    case EndDateField => req.endDate <= req.startDate
    case MinQuantityField => req.minQuantity.Given? && req.minQuantity.value < 1
    case ScopeField => req.scope !in ScopeRule
    case MinAmountField => req.minAmount.Given? && req.minAmount.value < 0
    case UsageLimitField => req.usageLimit.Given? && req.usageLimit.value < 1
    case ProductIdsField =>
      req.productIds.Given? && exists i :: 0 <= i < |req.productIds.value| && req.productIds.value[i] !in productIds
  }

  /**
   * The fields the validator reports, all rules checked at once; the
   * request is accepted exactly when none is reported.
   */
  function Violations(req: DiscountRequest, rows: seq<Discount>, ignore: Option<nat>, productIds: set<nat>): (errs: set<InvalidField>)
    ensures errs == {} <==> MeetsRules(req, rows, ignore, productIds)
    ensures CodeField in errs <==> |req.code| == 0 || CodeTaken(rows, req.code, ignore)
  {
    var errs := set f | f in AllFields && Breaks(f, req, rows, ignore, productIds);
    assert errs == {} ==> MeetsRules(req, rows, ignore, productIds) by {
      if errs == {} {
        assert NameField !in errs && CodeField !in errs && TypeField !in errs && ValueField !in errs;
        assert EndDateField !in errs && MinQuantityField !in errs && ScopeField !in errs;
        assert MinAmountField !in errs && UsageLimitField !in errs && ProductIdsField !in errs;
      }
    }
    errs
  }

  /** The `type` rule accepts exactly the backing values of the discount type enumeration. */
  lemma TypeRuleIsEnumValues(v: string)
    ensures v in TypeRule <==> v in DiscountTypeEnum.Values()
    ensures v in TypeRule <==> DiscountTypeEnum.FromValue(v).Some?
  {
  }

  /**
   * The row a create request writes: the request's fields, left-out or null
   * optional fields as null, and the two flags defaulting to "not for all
   * products" and "active".
   */
  function StoredDiscount(req: DiscountRequest, id: nat): (d: Discount)
    ensures d.id == id && d.name == req.name && d.code == req.code && d.kind == req.kind && d.scope == req.scope
    ensures d.value == req.value && d.startDate == req.startDate && d.endDate == req.endDate
    ensures d.minQuantity.Some? <==> req.minQuantity.Given?
    ensures req.minQuantity.Given? ==> d.minQuantity.value == req.minQuantity.value
    ensures d.minAmount.Some? <==> req.minAmount.Given?
    ensures req.minAmount.Given? ==> d.minAmount.value == req.minAmount.value
    ensures d.usageLimit.Some? <==> req.usageLimit.Given?
    ensures req.usageLimit.Given? ==> d.usageLimit.value == req.usageLimit.value
    ensures req.applyToAllProducts.None? ==> !d.applyToAllProducts
    ensures req.applyToAllProducts.Some? ==> d.applyToAllProducts == req.applyToAllProducts.value
    ensures req.isActive.None? ==> d.isActive
    ensures req.isActive.Some? ==> d.isActive == req.isActive.value
  {
    Discount(
      id, req.name, req.code, req.kind, req.value, req.startDate, req.endDate,
      req.minQuantity.OrNull(), req.minAmount.OrNull(), req.usageLimit.OrNull(), req.scope,
      req.applyToAllProducts.GetOr(false), req.isActive.GetOr(true))
  }

  /**
   * The row after `$discount->update($validated)`: the required fields are
   * overwritten, an optional field sent as null is cleared and one sent with a
   * value is set, and fields the request leaves out keep their stored value.
   */
  function Patched(d: Discount, req: DiscountRequest): (p: Discount)
    ensures p.id == d.id && p.name == req.name && p.code == req.code && p.scope == req.scope && p.kind == req.kind
    ensures p.value == req.value && p.startDate == req.startDate && p.endDate == req.endDate
    ensures req.minQuantity.Absent? ==> p.minQuantity == d.minQuantity
    ensures req.minQuantity.Null? ==> p.minQuantity.None?
    ensures req.minQuantity.Given? ==> p.minQuantity == Some(req.minQuantity.value)
    ensures req.minAmount.Absent? ==> p.minAmount == d.minAmount
    ensures req.minAmount.Null? ==> p.minAmount.None?
    ensures req.minAmount.Given? ==> p.minAmount == Some(req.minAmount.value)
    ensures req.usageLimit.Absent? ==> p.usageLimit == d.usageLimit
    ensures req.usageLimit.Null? ==> p.usageLimit.None?
    ensures req.usageLimit.Given? ==> p.usageLimit == Some(req.usageLimit.value)
    ensures req.applyToAllProducts.None? ==> p.applyToAllProducts == d.applyToAllProducts
    ensures req.applyToAllProducts.Some? ==> p.applyToAllProducts == req.applyToAllProducts.value
    ensures req.isActive.None? ==> p.isActive == d.isActive
    ensures req.isActive.Some? ==> p.isActive == req.isActive.value
  {
    d.(name := req.name, code := req.code, kind := req.kind, value := req.value,
       startDate := req.startDate, endDate := req.endDate,
       minQuantity := req.minQuantity.Over(d.minQuantity),
       minAmount := req.minAmount.Over(d.minAmount),
       usageLimit := req.usageLimit.Over(d.usageLimit),
       scope := req.scope,
       applyToAllProducts := req.applyToAllProducts.GetOr(d.applyToAllProducts),
       isActive := req.isActive.GetOr(d.isActive))
  }

  /** The products associated with discount `d` in the pivot table. */
  function Linked(pivot: set<Link>, d: nat): set<nat> {
    set l | l in pivot && l.discountId == d :: l.productId
  }

  /** The pivot after `detach()` on discount `d`: its associations are gone, no other changes. */
  function Detached(pivot: set<Link>, d: nat): (p: set<Link>)
    ensures Linked(p, d) == {}
    ensures forall e :: e != d ==> Linked(p, e) == Linked(pivot, e)
  {
    var p := set l | l in pivot && l.discountId != d;
    assert forall e :: e != d ==> Linked(p, e) == Linked(pivot, e) by {
      forall e | e != d ensures Linked(p, e) == Linked(pivot, e) {
        forall x | x in Linked(pivot, e) ensures x in Linked(p, e) {
          var l :| l in pivot && l.discountId == e && l.productId == x;
          assert l in p;
        }
      }
    }
    p
  }

  /** The pivot after `sync(ids)` on discount `d`: its associations become exactly `ids`. */
  function Synced(pivot: set<Link>, d: nat, ids: set<nat>): (p: set<Link>)
    ensures Linked(p, d) == ids
    ensures forall e :: e != d ==> Linked(p, e) == Linked(pivot, e)
  {
    var rest := Detached(pivot, d);
    var p := rest + set x | x in ids :: Link(d, x);
    assert Linked(p, d) == ids by {
      forall x | x in ids ensures x in Linked(p, d) {
        assert Link(d, x) in p;
      }
    }
    assert forall e :: e != d ==> Linked(p, e) == Linked(rest, e) by {
      forall e | e != d ensures Linked(p, e) == Linked(rest, e) {
        forall x | x in Linked(rest, e) ensures x in Linked(p, e) {
          var l :| l in rest && l.discountId == e && l.productId == x;
          assert l in p;
        }
      }
    }
    p
  }

  /** The product ids a request lists, as a set (`!empty($validated['product_ids'])` when non-empty). */
  function Requested(req: DiscountRequest): set<nat> {
    if req.productIds.Given? then set i | 0 <= i < |req.productIds.value| :: req.productIds.value[i] else {}
  }

  /** The association set a create request leaves for the new discount. */
  function StoreLinks(req: DiscountRequest): (links: set<nat>)
    ensures req.scope == "product" && !req.applyToAllProducts.GetOr(false) ==> links == Requested(req)
    ensures req.scope != "product" || req.applyToAllProducts.GetOr(false) ==> links == {}
  {
    if req.scope == "product" && !req.applyToAllProducts.GetOr(false) && Requested(req) != {}
    then Requested(req) else {}
  }

  /** The association set an update request leaves, from the set `current` before it. */
  function UpdateLinks(current: set<nat>, req: DiscountRequest): (links: set<nat>)
    ensures req.scope != "product" || req.applyToAllProducts.GetOr(false) ==> links == {}
    ensures req.scope == "product" && !req.applyToAllProducts.GetOr(false) ==>
      links == (if Requested(req) == {} then current else Requested(req))
  {
    if req.scope == "product" then
      if req.applyToAllProducts.GetOr(false) then {}
      else if Requested(req) != {} then Requested(req)
      else current
    else {}
  }

  /** Applying the same update twice leaves the same associations as applying it once. */
  lemma UpdateLinksIdempotent(current: set<nat>, req: DiscountRequest)
    ensures UpdateLinks(UpdateLinks(current, req), req) == UpdateLinks(current, req)
  {
  }

  /**
   * The update rules agree with the create rules on a discount that has no
   * associations yet.
   */
  lemma UpdateOfUnlinkedMatchesStore(req: DiscountRequest)
    ensures UpdateLinks({}, req) == StoreLinks(req)
  {
  }

  /** An update either keeps the associations or makes them a subset of the listed ids. */
  lemma UpdateLinksBounded(current: set<nat>, req: DiscountRequest)
    ensures UpdateLinks(current, req) == current || UpdateLinks(current, req) <= Requested(req)
    ensures req.scope != "product" ==> UpdateLinks(current, req) == {}
  {
  }

  /** Whether the discount is limited to its associated products. */
  predicate LimitedToLinks(d: Discount) {
    d.scope == "product" && !d.applyToAllProducts
  }

  /**
   * The products a discount can be used for: its associated products when it
   * is product-scoped and not for all products, every product otherwise.
   * Soft-deleted products are never listed.
   */
  function EligibleProducts(d: Discount, pivot: set<Link>, products: map<nat, Product>): (ids: set<nat>)
    ensures forall p :: p in ids <==>
      p in products && !products[p].trashed && (LimitedToLinks(d) ==> p in Linked(pivot, d.id))
  {
    if LimitedToLinks(d) then set p | p in Linked(pivot, d.id) && p in products && !products[p].trashed
    else set p | p in products && !products[p].trashed
  }

  /**
   * A product-scoped discount created without product ids and not for all
   * products is eligible for no product at all.
   */
  lemma StoredWithoutProductsEligibleForNone(req: DiscountRequest, id: nat, pivot: set<Link>, products: map<nat, Product>)
    requires req.scope == "product" && !req.applyToAllProducts.GetOr(false) && Requested(req) == {}
    requires Linked(pivot, id) == StoreLinks(req)
    ensures EligibleProducts(StoredDiscount(req, id), pivot, products) == {}
  {
  }

  /** The index of the row with primary key `id` (route-model binding), if any. */
  function IndexOfId(rows: seq<Discount>, id: nat): (k: Option<nat>)
    ensures k.None? <==> forall i :: 0 <= i < |rows| ==> rows[i].id != id
    ensures k.Some? ==> k.value < |rows| && rows[k.value].id == id
  {
    if rows == [] then None
    else if rows[0].id == id then Some(0)
    else match IndexOfId(rows[1..], id)
      case None => None
      case Some(k) => Some(k + 1)
  }

  datatype StoreResult = Created(discount: Discount) | StoreRejected(fields: set<InvalidField>)

  datatype UpdateResult = Updated(discount: Discount) | UpdateRejected(fields: set<InvalidField>) | Missing

  /** The discounts table and the discount_product pivot table. */
  class DiscountTable {
    var rows: seq<Discount>
    var pivot: set<Link>
    var nextId: nat

    /** Primary keys are below the next auto-increment value and distinct, codes are distinct. */
    ghost predicate Valid()
      reads this
    {
      && (forall i :: 0 <= i < |rows| ==> rows[i].id < nextId)
      && (forall i, j :: 0 <= i < j < |rows| ==> rows[i].id != rows[j].id)
      && (forall i, j :: 0 <= i < j < |rows| ==> rows[i].code != rows[j].code)
      && (forall l :: l in pivot ==> l.discountId < nextId)
    }

    constructor ()
      ensures Valid() && rows == [] && pivot == {}
    {
      rows, pivot, nextId := [], {}, 1;
    }

    /**
     * `DiscountController::store`: validate, insert the row, and sync the
     * listed products when the discount is product-scoped and not for all
     * products.
     */
    method Store(req: DiscountRequest, productIds: set<nat>) returns (r: StoreResult)
      requires Valid()
      modifies this
      ensures Valid()
      ensures Violations(req, old(rows), None, productIds) != {} ==>
        r == StoreRejected(Violations(req, old(rows), None, productIds)) &&
        rows == old(rows) && pivot == old(pivot) && nextId == old(nextId)
      ensures Violations(req, old(rows), None, productIds) == {} ==>
        r == Created(StoredDiscount(req, old(nextId))) && rows == old(rows) + [r.discount]
      ensures r.Created? ==> Linked(pivot, r.discount.id) == StoreLinks(req)
      ensures r.Created? ==> forall e :: e != r.discount.id ==> Linked(pivot, e) == Linked(old(pivot), e)
    {
      var errs := Violations(req, rows, None, productIds);
      if errs != {} {
        return StoreRejected(errs);
      }
      var d := StoredDiscount(req, nextId);
      assert Linked(pivot, d.id) == {};
      rows := rows + [d];
      nextId := nextId + 1;
      if req.scope == "product" && !req.applyToAllProducts.GetOr(false) && Requested(req) != {} {
        pivot := Synced(pivot, d.id, Requested(req));
      }
      r := Created(d);
    }

    /**
     * `DiscountController::update`: validate (the row's own code is not a
     * clash), update the row, then detach or sync its products by scope.
     */
    method Update(id: nat, req: DiscountRequest, productIds: set<nat>) returns (r: UpdateResult)
      requires Valid()
      modifies this
      ensures Valid()
      ensures r.Missing? <==> IndexOfId(old(rows), id).None?
      ensures IndexOfId(old(rows), id).None? ==> r == Missing && rows == old(rows) && pivot == old(pivot)
      ensures IndexOfId(old(rows), id).Some? && Violations(req, old(rows), Some(id), productIds) == {} ==> r.Updated?
      ensures IndexOfId(old(rows), id).Some? && Violations(req, old(rows), Some(id), productIds) != {} ==>
        r == UpdateRejected(Violations(req, old(rows), Some(id), productIds)) &&
        rows == old(rows) && pivot == old(pivot)
      ensures r.Updated? ==>
        var k := IndexOfId(old(rows), id).value;
        Violations(req, old(rows), Some(id), productIds) == {} &&
        r.discount == Patched(old(rows)[k], req) && rows == old(rows)[k := r.discount]
      ensures r.Updated? ==> Linked(pivot, id) == UpdateLinks(Linked(old(pivot), id), req)
      ensures r.Updated? ==> forall e :: e != id ==> Linked(pivot, e) == Linked(old(pivot), e)
      ensures nextId == old(nextId)
    {
      var k := IndexOfId(rows, id);
      if k.None? {
        return Missing;
      }
      var errs := Violations(req, rows, Some(id), productIds);
      if errs != {} {
        return UpdateRejected(errs);
      }
      var d := Patched(rows[k.value], req);
      forall i | 0 <= i < |rows| && i != k.value ensures rows[i].code != d.code {
        assert !CodeTaken(rows, req.code, Some(id));
      }
      rows := rows[k.value := d];
      if req.scope == "product" {
        if req.applyToAllProducts.GetOr(false) {
          pivot := Detached(pivot, id);
        } else if Requested(req) != {} {
          pivot := Synced(pivot, id, Requested(req));
        }
      } else {
        pivot := Detached(pivot, id);
      }
      r := Updated(d);
    }
  }

  /**
   * Re-submitting a discount's own code on update does not break the
   * uniqueness rule.
   */
  lemma OwnCodeNotTaken(rows: seq<Discount>, k: nat)
    requires k < |rows|
    requires forall i, j :: 0 <= i < j < |rows| ==> rows[i].code != rows[j].code
    ensures !CodeTaken(rows, rows[k].code, Some(rows[k].id))
  {
  }
}
