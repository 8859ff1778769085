/** Primitive JavaScript values as the widget and the runtime use them: the
    numbers it holds are integers (the slider has step 1), plus NaN; strings
    are sequences of characters. */
module JsValues {

  datatype Prim =
    | Num(n: int)
    | NaN
    | Bool(b: bool)
    | Str(s: string)
    | Null
    | Undefined

  /** JavaScript truthiness of a primitive (used by `ctx[1] ? icon_play : icon_pause`). */
  predicate Truthy(v: Prim)
  {
    match v
    case Num(n) => n != 0
    case NaN => false
    case Bool(b) => b
    case Str(s) => s != ""
    case Null => false
    case Undefined => false
  }

  /** Strict equality `a === b` on primitives: NaN equals nothing, not even itself. */
  predicate StrictEquals(a: Prim, b: Prim)
  {
    !a.NaN? && !b.NaN? && a == b
  }

  /** safe_not_equal(a, b) = a != a ? b == b : a !== b, on primitives
      (the object and function disjuncts never hold for a primitive `a`).
      `a != a` holds only of NaN, and `b == b` fails only for NaN. */
  predicate SafeNotEqual(a: Prim, b: Prim)
  {
    if a.NaN? then !b.NaN? else !StrictEquals(a, b)
  }

  /** safe_not_equal reports a change exactly when the new value differs from
      the old one, counting NaN as equal to NaN: re-setting a value to what it
      already is never reports a change, and every real change is reported. */
  lemma SafeNotEqualIsChange(a: Prim, b: Prim)
    ensures SafeNotEqual(a, b) <==> a != b
    ensures !SafeNotEqual(a, a)
  {
  }

  /** safe_not_equal differs from `!==` only on the pair (NaN, NaN). */
  lemma SafeNotEqualVersusStrict(a: Prim, b: Prim)
    ensures SafeNotEqual(a, b) <==> !StrictEquals(a, b) && !(a.NaN? && b.NaN?)
  {
  }

  predicate IsDigit(c: char)
  {
    '0' <= c <= '9'
  }

  predicate AllDigits(s: string)
  {
    forall k :: 0 <= k < |s| ==> IsDigit(s[k])
  }

  function DigitChar(d: nat): (c: char)
    requires d < 10
    ensures IsDigit(c) && (c as int) - ('0' as int) == d
  {
    ('0' as int + d) as char
  }

  /** Decimal representation of a natural number, without leading zeros. */
  function DecimalString(n: nat): (s: string)
    ensures |s| >= 1 && AllDigits(s)
    ensures |s| > 1 ==> s[0] != '0'
    decreases n
  {
    if n < 10 then [DigitChar(n)] else DecimalString(n / 10) + [DigitChar(n % 10)]
  }

  /** Value of a string of decimal digits, most significant first. */
  function ParseDigits(s: string): nat
    requires AllDigits(s)
    decreases |s|
  {
    if s == [] then 0
    else ParseDigits(s[..|s| - 1]) * 10 + ((s[|s| - 1] as int) - ('0' as int))
  }

  /** Reading back the decimal representation of n gives n. */
  lemma {:induction false} ParseDecimal(n: nat)
    ensures ParseDigits(DecimalString(n)) == n
    decreases n
  {
    var s := DecimalString(n);
    if n >= 10 {
      ParseDecimal(n / 10);
      assert s[..|s| - 1] == DecimalString(n / 10);
      assert s[|s| - 1] == DigitChar(n % 10);
    }
  }

  /** to_number(value): '' becomes null, anything else goes through unary `+`.
      Of the string-to-number grammar only unsigned decimal digit strings are
      modelled; every other string reads as NaN. */
  function ToNumber(value: string): (r: Prim)
    ensures value == "" <==> r == Null
    ensures r.Num? ==> r.n >= 0
    ensures r.Num? || r.NaN? || r.Null?
  {
    if value == "" then Null
    else if AllDigits(value) then Num(ParseDigits(value))
    else NaN
  }

  /** `'' + v`: the string a primitive converts to. */
  function ToJsString(v: Prim): (s: string)
    ensures v.Num? && v.n >= 0 ==> AllDigits(s) && s != ""
  {
    match v
    case Num(n) => if n >= 0 then DecimalString(n) else "-" + DecimalString(-n)
    case NaN => "NaN"
    case Bool(b) => if b then "true" else "false"
    case Str(s) => s
    case Null => "null"
    case Undefined => "undefined"
  }

  /** A non-negative number survives being written to a text field and read
      back with to_number. */
  lemma NumberStringRoundTrip(n: nat)
    ensures ToNumber(ToJsString(Num(n))) == Num(n)
  {
    ParseDecimal(n);
  }
}
