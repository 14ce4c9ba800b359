/**
 * The parsed JSON the two API collectors read (a number is kept as its raw text, as
 * `JsonElement` does), the item accessors `GetStr` and `GetInt`, and the `JsonElement` reads
 * that throw on a value of the wrong kind.
 */
module Json {
  import opened Wrappers
  import opened Text

  datatype Value =
    | Str(text: string)
    | Num(raw: string)
    | Obj(fields: map<string, Value>)
    | Arr(items: seq<Value>)
    | Bool(b: bool)
    | Null

  const Int32Min: int := -0x8000_0000
  const Int32Max: int := 0x7FFF_FFFF

  predicate IsInt32(n: int) {
    Int32Min <= n <= Int32Max
  }

  /**
   * `JsonElement.GetInt32` on a number: the raw text must be an integer literal (no fraction,
   * no exponent) that fits in 32 bits; otherwise the call throws.
   */
  function NumberAsInt32(raw: string): (r: Option<int>)
    ensures r.Some? ==> IsInt32(r.value)
  {
    match ParseInt(raw)
    case Some(n) => if IsInt32(n) then Some(n) else None
    case None => None
  }

  /** The characters `NumberStyles.Integer` lets surround a number. */
  predicate IsIntegerPadding(c: char) {
    c == ' ' || ('\t' <= c <= '\r')
  }

  function StripPadding(s: string): (r: string)
    ensures |r| <= |s|
    decreases |s|
  {
    if |s| > 0 && IsIntegerPadding(s[0]) then StripPadding(s[1..])
    else if |s| > 0 && IsIntegerPadding(s[|s| - 1]) then StripPadding(s[..|s| - 1])
    else s
  }

  /**
   * `int.TryParse(text, out v)`: optional padding, an optional `+` or `-`, decimal digits, and a
   * value that fits in 32 bits; `None` when it fails.
   */
  function TryParseInt32(text: string): (r: Option<int>)
    ensures r.Some? ==> IsInt32(r.value)
  {
    var t := StripPadding(text);
    var n :=
      if |t| > 0 && t[0] == '+' then (if IsDigits(t[1..]) then Some(DigitsValue(t[1..]) as int) else None)
      else ParseInt(t);
    match n
    case Some(v) => if IsInt32(v) then Some(v) else None
    case None => None
  }

  /**
   * `GetStr(item, name)`: the text of a string property, the raw text of a number property, and
   * null when the property is missing or holds anything else.
   */
  function GetStr(fields: map<string, Value>, name: string): (r: Option<string>)
    ensures r.None? <==> name !in fields || !(fields[name].Str? || fields[name].Num?)
    ensures r.Some? && fields[name].Str? ==> r.value == fields[name].text
    ensures r.Some? && fields[name].Num? ==> r.value == fields[name].raw
  {
    if name in fields then
      match fields[name]
      case Str(text) => Some(text)
      case Num(raw) => Some(raw)
      case _ => None
    else None
  }

  /** The result of `GetInt`: a value, or the exception `GetInt32` throws on a non-int number. */
  datatype IntRead = Read(value: int) | Throws

  /**
   * `GetInt(item, name)`: a number property is read with `GetInt32` (which throws when it is not a
   * 32-bit integer); a string property is read with `int.TryParse`, falling back to 0; anything
   * else is 0.
   */
  function GetInt(fields: map<string, Value>, name: string): (r: IntRead)
    ensures r.Read? ==> IsInt32(r.value)
    ensures r.Throws? <==> name in fields && fields[name].Num? && NumberAsInt32(fields[name].raw).None?
  {
    if name in fields then
      match fields[name]
      case Num(raw) => (match NumberAsInt32(raw) case Some(v) => Read(v) case None => Throws)
      case Str(text) => Read(TryParseInt32(text).GetOr(0))
      case _ => Read(0)
    else Read(0)
  }

  /** A number property written as the decimal text of a 32-bit integer reads back as that integer. */
  lemma GetIntOfRenderedNumber(name: string, v: int)
    requires IsInt32(v)
    ensures GetInt(map[name := Num(IntToString(v))], name) == Read(v)
  {
    IntToStringRoundTrip(v);
  }

  lemma {:induction false} StripPaddingOfDigitsText(s: string)
    requires |s| > 0 && !IsIntegerPadding(s[0]) && !IsIntegerPadding(s[|s| - 1])
    ensures StripPadding(s) == s
  {
  }

  /** The decimal text of an integer parses back to it exactly when it fits in 32 bits. */
  lemma TryParseInt32OfRendered(v: int)
    ensures TryParseInt32(IntToString(v)) == if IsInt32(v) then Some(v) else None
  {
    var t := IntToString(v);
    IntToStringRoundTrip(v);
    assert |t| > 0;
    assert t[0] == '-' || IsDigit(t[0]);
    assert IsDigit(t[|t| - 1]);
    StripPaddingOfDigitsText(t);
  }

  /** A string property holding the decimal text of a 32-bit integer reads back as that integer. */
  lemma GetIntOfRenderedString(name: string, v: int)
    requires IsInt32(v)
    ensures GetInt(map[name := Str(IntToString(v))], name) == Read(v)
  {
    var t := IntToString(v);
    IntToStringRoundTrip(v);
    assert |t| > 0;
    assert t[0] == '-' || IsDigit(t[0]);
    assert IsDigit(t[|t| - 1]);
    StripPaddingOfDigitsText(t);
  }

  /**
   * `JsonElement.GetInt32()`: a number that is a 32-bit integer; `None` stands for the exception
   * it throws on any other number and on a value that is not a number.
   */
  function GetInt32(v: Value): (r: Option<int>)
    ensures r.Some? ==> v.Num? && IsInt32(r.value)
    ensures v.Num? ==> r == NumberAsInt32(v.raw)
  {
    if v.Num? then NumberAsInt32(v.raw) else None
  }

  /**
   * `JsonElement.GetString()`: the text of a string, null for a JSON null; `None` stands for the
   * exception it throws on any other kind.
   */
  function GetString(v: Value): (r: Option<Option<string>>)
    ensures r.None? <==> !(v.Str? || v.Null?)
    ensures r == Some(None) <==> v.Null?
    ensures v.Str? ==> r == Some(Some(v.text))
  {
    match v
    case Str(text) => Some(Some(text))
    case Null => Some(None)
    case _ => None
  }

  /** `JsonElement.GetArrayLength()`, `None` for the exception it throws on a non-array. */
  function ArrayLength(v: Value): (r: Option<nat>)
    ensures r.Some? <==> v.Arr?
    ensures r.Some? ==> r.value == |v.items|
  {
    if v.Arr? then Some(|v.items|) else None
  }
}
