/** The order status enumeration and its string codec. */
module OrderStatusEnum {
  import opened Optional

  /** The five states an order can be in, in declaration order. */
  datatype OrderStatus = Pending | Processing | Completed | Cancelled | Refunded
  {
    /** The backing string stored in the `orders.status` column. */
    function Value(): string {
      match this
      case Pending => "pending"
      case Processing => "processing"
      case Completed => "completed"
      case Cancelled => "cancelled"
      case Refunded => "refunded"
    }

    /** The human-readable name: the backing value with its first letter capitalised. */
    function Label(): (l: string)
      ensures |l| == |Value()| > 0
      ensures l[0] == Capitalised(Value()[0]) && l[1..] == Value()[1..]
    {
      match this
      case Pending => "Pending"
      case Processing => "Processing"
      case Completed => "Completed"
      case Cancelled => "Cancelled"
      case Refunded => "Refunded"
    }

    predicate IsPending() { this == Pending }
    predicate IsProcessing() { this == Processing }
    predicate IsCompleted() { this == Completed }
    predicate IsCancelled() { this == Cancelled }
    predicate IsRefunded() { this == Refunded }

    /** The badge classes: a light background and a dark text of one hue. */
    function Color(): (c: string)
      ensures |c| > 3 && c[..3] == "bg-"
    {
      match this
      case Pending => "bg-yellow-100 text-yellow-800"
      case Processing => "bg-blue-100 text-blue-800"
      case Completed => "bg-green-100 text-green-800"
      case Cancelled => "bg-red-100 text-red-800"
      case Refunded => "bg-purple-100 text-purple-800"
    }
  }

  /** Upper-case of an ASCII lower-case letter; any other character unchanged. */
  function Capitalised(c: char): char {
    if 'a' <= c <= 'z' then (c as int - 32) as char else c
  }

  /** Every case, in declaration order. */
  function Cases(): (cs: seq<OrderStatus>)
    ensures |cs| == 5
    ensures forall i, j :: 0 <= i < j < |cs| ==> cs[i] != cs[j]
  {
    [Pending, Processing, Completed, Cancelled, Refunded]
  }

  /** Every case appears in `Cases()`, so `Values()` and `ToSelectArray()` miss none. */
  lemma CasesComplete(s: OrderStatus)
    ensures s in Cases()
  {
  }

  /** The backing values of all cases, in declaration order. */
  function Values(): (vs: seq<string>)
    ensures vs == ["pending", "processing", "completed", "cancelled", "refunded"]
    ensures forall i, j :: 0 <= i < j < |vs| ==> vs[i] != vs[j]
  {
    seq(|Cases()|, i requires 0 <= i < |Cases()| => Cases()[i].Value())
  }

  /** The value => label pairs offered in a select box, in declaration order. */
  function ToSelectArray(): (entries: seq<(string, string)>)
    ensures |entries| == |Cases()|
    ensures forall i :: 0 <= i < |entries| ==> entries[i] == (Cases()[i].Value(), Cases()[i].Label())
  {
    [("pending", Pending.Label()),
     ("processing", Processing.Label()),
     ("completed", Completed.Label()),
     ("cancelled", Cancelled.Label()),
     ("refunded", Refunded.Label())]
  }

  /** Decodes a backing value; any other string gives no status. */
  function FromValue(v: string): (r: Option<OrderStatus>)
    ensures r.Some? <==> v in Values()
    ensures r.Some? ==> r.value.Value() == v
  {
    match v
    case "pending" => Some(Pending)
    case "processing" => Some(Processing)
    case "completed" => Some(Completed)
    case "cancelled" => Some(Cancelled)
    case "refunded" => Some(Refunded)
    case _ => None
  }

  /** Decoding the backing value of a status gives that status back. */
  lemma FromValueOfValue(s: OrderStatus)
    ensures FromValue(s.Value()) == Some(s)
  {
  }

  /** Exactly one of the five `Is...` predicates holds of every status. */
  lemma ExactlyOnePredicate(s: OrderStatus)
    ensures (if s.IsPending() then 1 else 0) + (if s.IsProcessing() then 1 else 0)
          + (if s.IsCompleted() then 1 else 0) + (if s.IsCancelled() then 1 else 0)
          + (if s.IsRefunded() then 1 else 0) == 1
  {
  }

  /** Distinct statuses have distinct labels and distinct colours. */
  lemma LabelsAndColorsDistinct(s: OrderStatus, t: OrderStatus)
    requires s != t
    ensures s.Label() != t.Label() && s.Color() != t.Color()
  {
  }
}
