/** The discount type enumeration and its string codec. */
module DiscountTypeEnum {
  import opened Optional

  /** The three kinds of discount, in declaration order. */
  datatype DiscountType = Percentage | Fixed | BuyXGetY
  {
    /** The backing string stored in the `discounts.type` column. */
    function Value(): string {
      match this
      case Percentage => "percentage"
      case Fixed => "fixed"
      case BuyXGetY => "buy_x_get_y"
    }

    /** The human-readable name shown in the management screens. */
    function Label(): (l: string)
      ensures |l| > 0
    {
      match this
      case Percentage => "Percentage Discount"
      case Fixed => "Fixed Amount Discount"
      case BuyXGetY => "Buy X Get Y Offer"
    }

    predicate IsPercentageBased() { this == Percentage }
    predicate IsFixedAmount() { this == Fixed }
    predicate IsBuyXGetY() { this == BuyXGetY }
  }

  /** Every case, in declaration order. */
  function Cases(): (cs: seq<DiscountType>)
    ensures |cs| == 3
    ensures forall i, j :: 0 <= i < j < |cs| ==> cs[i] != cs[j]
  {
    [Percentage, Fixed, BuyXGetY]
  }

  /** Every case appears in `Cases()`, so `Values()` and `ToSelectArray()` miss none. */
  lemma CasesComplete(t: DiscountType)
    ensures t in Cases()
  {
  }

  /** The backing values of all cases, in declaration order. */
  function Values(): (vs: seq<string>)
    ensures vs == ["percentage", "fixed", "buy_x_get_y"]
    ensures forall i, j :: 0 <= i < j < |vs| ==> vs[i] != vs[j]
  {
    seq(|Cases()|, i requires 0 <= i < |Cases()| => Cases()[i].Value())
  }

  /** The value => label pairs offered in a select box, in declaration order. */
  function ToSelectArray(): (entries: seq<(string, string)>)
    ensures |entries| == |Cases()|
    ensures forall i :: 0 <= i < |entries| ==> entries[i] == (Cases()[i].Value(), Cases()[i].Label())
  {
    [("percentage", Percentage.Label()),
     ("fixed", Fixed.Label()),
     ("buy_x_get_y", BuyXGetY.Label())]
  }

  /** Decodes a backing value; any other string gives no type. */
  function FromValue(v: string): (r: Option<DiscountType>)
    ensures r.Some? <==> v in Values()
    ensures r.Some? ==> r.value.Value() == v
  {
    match v
    case "percentage" => Some(Percentage)
    case "fixed" => Some(Fixed)
    case "buy_x_get_y" => Some(BuyXGetY)
    case _ => None
  }

  /** Decoding the backing value of a type gives that type back. */
  lemma FromValueOfValue(t: DiscountType)
    ensures FromValue(t.Value()) == Some(t)
  {
  }

  /** Exactly one of the three `Is...` predicates holds of every type. */
  lemma ExactlyOnePredicate(t: DiscountType)
    ensures (if t.IsPercentageBased() then 1 else 0) + (if t.IsFixedAmount() then 1 else 0)
          + (if t.IsBuyXGetY() then 1 else 0) == 1
  {
  }

  /** Distinct types have distinct labels, so the select box shows no name twice. */
  lemma LabelsDistinct(s: DiscountType, t: DiscountType)
    requires s != t
    ensures s.Label() != t.Label()
  {
  }
}
