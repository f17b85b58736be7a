/** JavaScript values as they flow through request bodies, and the conversions the
    application's code applies to them implicitly: truthiness, `||`, `String(v)`, `Number(v)`
    in relational comparisons, `parseInt`, and the JSON encoding a request body goes through. */
module JsValues {
  import opened JsStrings

  /** The values that appear in request bodies and query results. Numbers are integers (or NaN). */
  datatype JsValue =
    | Undefined
    | Null
    | Bool(b: bool)
    | Num(n: int)
    | NaN
    | Str(s: string)
    | Arr(elems: seq<JsValue>)
    | Obj  // a JSON object; its properties are not modelled

  /** `!!v`: `false`, 0, NaN, the empty string, `null` and `undefined` are falsy; arrays and objects are truthy. */
  predicate Truthy(v: JsValue) {
    match v
    case Undefined => false
    case Null => false
    case Bool(b) => b
    case Num(n) => n != 0
    case NaN => false
    case Str(s) => s != ""
    case Arr(_) => true
    case Obj => true
  }

  /** `a || b`: the first operand when it is truthy, the second otherwise. */
  function Or(a: JsValue, b: JsValue): (r: JsValue)
    ensures Truthy(a) ==> r == a
    ensures !Truthy(a) ==> r == b
  {
    if Truthy(a) then a else b
  }

  lemma OrNullIdempotent(v: JsValue)
    ensures OrNull(OrNull(v)) == OrNull(v)
  {
  }

  /** `v || null`, the idiom the controllers use to turn every falsy field into SQL NULL. */
  function OrNull(v: JsValue): (r: JsValue)
    ensures r == Null || r == v
    ensures Truthy(r) == Truthy(v)
    ensures !Truthy(v) ==> r == Null
  {
    Or(v, Null)
  }

  /** `String(v)`. An array is written as its elements joined by ",", with `null` and
      `undefined` elements written as nothing. */
  function ToStr(v: JsValue): string
  {
    match v
    case Undefined => "undefined"
    case Null => "null"
    case Bool(b) => if b then "true" else "false"
    case Num(n) => IntToString(n)
    case NaN => "NaN"
    case Str(s) => s
    case Arr(xs) =>
      Join(seq(|xs|, i requires 0 <= i < |xs| =>
                 if xs[i].Undefined? || xs[i].Null? then "" else ToStr(xs[i])), ",")
    case Obj => "[object Object]"
  }

  // ---------------------------------------------------------------------------------------
  // digits in radix 10 and 16

  predicate IsHexDigit(c: char) { IsDigit(c) || 'a' <= c <= 'f' || 'A' <= c <= 'F' }

  function HexDigitValue(c: char): (d: nat)
    requires IsHexDigit(c)
    ensures d < 16
    ensures IsDigit(c) ==> d < 10
  {
    if IsDigit(c) then c as int - '0' as int
    else if 'a' <= c <= 'f' then c as int - 'a' as int + 10
    else c as int - 'A' as int + 10
  }

  predicate IsRadixDigit(c: char, radix: nat) {
    IsHexDigit(c) && HexDigitValue(c) < radix
  }

  predicate AllRadixDigits(s: string, radix: nat) {
    forall i :: 0 <= i < |s| ==> IsRadixDigit(s[i], radix)
  }

  /** The longest prefix of `s` made of digits of the radix. */
  function DigitPrefix(s: string, radix: nat): (r: string)
    ensures |r| <= |s| && r == s[..|r|]
    ensures AllRadixDigits(r, radix)
    ensures |r| < |s| ==> !IsRadixDigit(s[|r|], radix)
  {
    if |s| > 0 && IsRadixDigit(s[0], radix) then [s[0]] + DigitPrefix(s[1..], radix) else []
  }

  /** The number a string of digits denotes in the radix. */
  function DigitsValue(s: string, radix: nat): nat
    requires AllRadixDigits(s, radix)
  {
    if |s| == 0 then 0 else DigitsValue(s[..|s| - 1], radix) * radix + HexDigitValue(s[|s| - 1])
  }

  // ---------------------------------------------------------------------------------------
  // parseInt

  /** The unsigned part of `parseInt`: a hexadecimal number after "0x"/"0X", a decimal one
      otherwise, read up to the first character that is not a digit; NaN when no digit is read. */
  function ParseDigits(u: string): (r: JsValue)
    ensures r.Num? ==> r.n >= 0
    ensures r.Num? || r.NaN?
  {
    var hex := |u| >= 2 && u[0] == '0' && (u[1] == 'x' || u[1] == 'X');
    var radix := if hex then 16 else 10;
    var digits := DigitPrefix(if hex then u[2..] else u, radix);
    if digits == [] then NaN else Num(DigitsValue(digits, radix))
  }

  function Negate(v: JsValue): JsValue {
    if v.Num? then Num(-v.n) else v
  }

  /** `parseInt(s)` without a radix: skip leading white space, read an optional sign, then
      the unsigned part. */
  function ParseInt(s: string): (r: JsValue)
    ensures r.Num? || r.NaN?
  {
    var t := TrimStart(s);
    if |t| > 0 && t[0] == '-' then Negate(ParseDigits(t[1..]))
    else if |t| > 0 && t[0] == '+' then ParseDigits(t[1..])
    else ParseDigits(t)
  }

  /** `parseInt(v)` on any value: the value is first converted with `String(v)`. */
  function ParseIntValue(v: JsValue): (r: JsValue)
    ensures r.Num? || r.NaN?
  {
    ParseInt(ToStr(v))
  }

  lemma {:induction false} DigitPrefixOfDigits(s: string, radix: nat)
    requires AllRadixDigits(s, radix)
    ensures DigitPrefix(s, radix) == s
  {
    if |s| > 0 {
      DigitPrefixOfDigits(s[1..], radix);
    }
  }

  lemma {:induction false} NatToStringValue(n: nat)
    ensures AllRadixDigits(NatToString(n), 10)
    ensures DigitsValue(NatToString(n), 10) == n
  {
    var r := NatToString(n);
    if n >= 10 {
      NatToStringValue(n / 10);
      assert r[..|r| - 1] == NatToString(n / 10);
    }
  }

  lemma ParseDigitsOfDigits(d: string)
    requires |d| >= 1 && AllRadixDigits(d, 10)
    ensures ParseDigits(d) == Num(DigitsValue(d, 10))
  {
    DigitPrefixOfDigits(d, 10);
    assert !(|d| >= 2 && (d[1] == 'x' || d[1] == 'X')) by {
      if |d| >= 2 {
        assert IsRadixDigit(d[1], 10);
      }
    }
  }

  lemma NotWhitespace(c: char)
    requires c == '-' || IsDigit(c)
    ensures !IsWhitespace(c)
  {
  }

  /** Reading back the decimal form of an integer with `parseInt` gives the integer. */
  lemma ParseIntRoundTrip(n: int)
    ensures ParseInt(IntToString(n)) == Num(n)
  {
    var m: nat := if n < 0 then -n else n;
    var d := NatToString(m);
    NatToStringValue(m);
    ParseDigitsOfDigits(d);
    var s := IntToString(n);
    assert IsRadixDigit(d[0], 10);
    NotWhitespace(s[0]);
    assert TrimStart(s) == s;
    if n < 0 {
      assert s[1..] == d;
    }
  }

  // ---------------------------------------------------------------------------------------
  // Number(v), as used by `v < k` and `v > k` against a number

  /** `Number(s)` for decimal integer strings (after trimming, with an optional sign) and
      "0x" hexadecimal strings; the empty or all-white-space string is 0; anything else NaN. */
  function StringToNumber(s: string): (r: JsValue)
    ensures r.Num? || r.NaN?
  {
    var t := Trim(s);
    if t == "" then Num(0)
    else if |t| > 2 && t[0] == '0' && (t[1] == 'x' || t[1] == 'X') && AllRadixDigits(t[2..], 16) then
      Num(DigitsValue(t[2..], 16))
    else
      var negative := t[0] == '-';
      var u := if t[0] == '-' || t[0] == '+' then t[1..] else t;
      if u != "" && AllRadixDigits(u, 10) then
        var value: int := DigitsValue(u, 10);
        Num(if negative then -value else value)
      else NaN
  }

  /** `Number(v)`. */
  function ToNumber(v: JsValue): (r: JsValue)
    ensures r.Num? || r.NaN?
  {
    match v
    case Undefined => NaN
    case Null => Num(0)
    case Bool(b) => Num(if b then 1 else 0)
    case Num(n) => Num(n)
    case NaN => NaN
    case Str(s) => StringToNumber(s)
    case Arr(_) => StringToNumber(ToStr(v))
    case Obj => NaN
  }

  /** `v < k`; every comparison with NaN is false. */
  predicate LessThan(v: JsValue, k: int) {
    ToNumber(v).Num? && ToNumber(v).n < k
  }

  /** `v > k`. */
  predicate GreaterThan(v: JsValue, k: int) {
    ToNumber(v).Num? && ToNumber(v).n > k
  }

  /** A digit string, written with or without a minus sign, is its own trim and does not
      read as hexadecimal. */
  lemma SignedDigitsShape(d: string, negative: bool)
    requires |d| >= 1 && AllRadixDigits(d, 10)
    ensures var s := if negative then "-" + d else d;
            && Trim(s) == s
            && !(|s| > 2 && s[0] == '0' && (s[1] == 'x' || s[1] == 'X'))
            && (negative <==> s[0] == '-')
            && s[0] != '+'
            && (negative ==> s[1..] == d)
  {
    var s := if negative then "-" + d else d;
    assert IsRadixDigit(d[0], 10) && IsRadixDigit(d[|d| - 1], 10);
    assert s[|s| - 1] == d[|d| - 1];
    assert !IsWhitespace(s[0]) && !IsWhitespace(s[|s| - 1]);
    TrimKeeps(s);
    if negative {
      assert s[1..] == d;
    } else if |s| > 2 {
      assert IsRadixDigit(s[1], 10);
    }
  }

  /** `Number` of a digit string, with or without a minus sign. */
  lemma NumberOfDigits(d: string, negative: bool)
    requires |d| >= 1 && AllRadixDigits(d, 10)
    ensures var value: int := DigitsValue(d, 10);
            StringToNumber(if negative then "-" + d else d) == Num(if negative then -value else value)
  {
    var s := if negative then "-" + d else d;
    SignedDigitsShape(d, negative);
    var u := if s[0] == '-' || s[0] == '+' then s[1..] else s;
    assert u == d;
  }

  /** Reading back the decimal form of an integer with `Number` gives the integer. */
  lemma NumberRoundTrip(n: int)
    ensures StringToNumber(IntToString(n)) == Num(n)
  {
    var m: nat := if n < 0 then -n else n;
    NatToStringValue(m);
    NumberOfDigits(NatToString(m), n < 0);
  }

  /** `v == s` for a string `s` under JavaScript's loose equality: `null` and `undefined`
      equal no string, a number or a boolean is compared with `Number(s)`, an array or an
      object through its string form. */
  predicate LooseEqualsString(v: JsValue, s: string) {
    match v
    case Undefined => false
    case Null => false
    case Bool(b) => StringToNumber(s) == Num(if b then 1 else 0)
    case Num(n) => StringToNumber(s) == Num(n)
    case NaN => false
    case Str(t) => t == s
    case Arr(_) => ToStr(v) == s
    case Obj => s == "[object Object]"
  }

  // ---------------------------------------------------------------------------------------
  // request bodies

  /** A decoded JSON request body (`req.body`). */
  type Body = map<string, JsValue>

  /** `req.body.key`: `undefined` when the key is absent. */
  function Get(body: Body, key: string): (v: JsValue)
    ensures key !in body ==> v == Undefined
  {
    if key in body then body[key] else Undefined
  }

  /** What a value looks like after `JSON.stringify` on the client and `JSON.parse` on the
      server: NaN becomes `null`, and so do `undefined` array elements. */
  function Wire(v: JsValue): (w: JsValue)
    ensures !w.NaN? && !w.Undefined?
  {
    match v
    case Undefined => Null
    case NaN => Null
    case Arr(xs) => Arr(seq(|xs|, i requires 0 <= i < |xs| => Wire(xs[i])))
    case _ => v
  }

  /** A client-side object as the server receives it: properties holding `undefined` are
      dropped and the others go through `Wire`. */
  function Transmit(payload: Body): (body: Body)
    ensures forall k :: k in body <==> k in payload && !payload[k].Undefined?
    ensures forall k :: k in body ==> body[k] == Wire(payload[k])
  {
    map k | k in payload && !payload[k].Undefined? :: Wire(payload[k])
  }

  /** A property as the server reads it after `Transmit`. */
  lemma TransmitGet(payload: Body, key: string)
    ensures Get(Transmit(payload), key)
            == if key in payload && !payload[key].Undefined? then Wire(payload[key]) else Undefined
  {
  }
}
