/**
 * The JavaScript numbers the pages handle: `Number(text)` of a query-string value, its
 * truthiness, and `String(n)` back. Only whole numbers and `NaN` arise here.
 */
module JsNumber {
  import opened Wrappers
  import opened Text

  datatype Num = Finite(value: int) | NaN

  /**
   * `Number(s)`: the empty string is 0, an optionally signed run of decimal digits is its value,
   * anything else is `NaN`.
   */
  function Number(s: string): (n: Num)
    ensures n.Finite? <==> s == "" || IsDigits(if s[0] == '-' || s[0] == '+' then s[1..] else s)
  {
    if s == "" then Finite(0)
    else if s[0] == '+' then (if IsDigits(s[1..]) then Finite(DigitsValue(s[1..])) else NaN)
    else match ParseInt(s)
      case Some(v) => Finite(v)
      case None => NaN
  }

  /** In a condition, `NaN` and 0 are false and every other number is true. */
  predicate Truthy(n: Num) {
    n.Finite? && n.value != 0
  }

  /** `String(n)` */
  function ToString(n: Num): string {
    match n
    case Finite(v) => IntToString(v)
    case NaN => "NaN"
  }

  /** A number written out reads back as itself, and `NaN` as `NaN`. */
  lemma NumberOfToString(n: Num)
    ensures Number(ToString(n)) == n
  {
    match n
    case NaN =>
    case Finite(v) =>
      IntToStringRoundTrip(v);
      if v >= 0 {
        assert ToString(n)[0] != '+';
      } else {
        assert ToString(n)[0] == '-';
      }
  }
}
