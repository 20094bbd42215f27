/**
 * Decoded JSON request bodies and the few Python operations the handlers apply to them:
 * `body.get(key)`, truthiness, `==` against an integer, and the conversion the database
 * applies when a JSON value is bound to an integer or text column.
 * Numbers are integers only.
 */
module Json {
  import opened Wrappers

  datatype Json =
    | JNull
    | JBool(b: bool)
    | JNum(n: int)
    | JStr(s: string)
    | JArray(items: seq<Json>)
    | JObject(fields: map<string, Json>)

  /** Python truthiness of a decoded value: null, false, 0, "", [] and {} are falsy. */
  predicate Truthy(v: Json)
    ensures !Truthy(v) <==>
      v == JNull || v == JBool(false) || v == JNum(0) || v == JStr("") || v == JArray([]) || v == JObject(map[])
  {
    match v
    case JNull => false
    case JBool(b) => b
    case JNum(n) => n != 0
    case JStr(s) => s != ""
    case JArray(items) => items != []
    case JObject(fields) => fields != map[]
  }

  /** `body.get(key)`: a missing key and a JSON null both read as `None`. */
  function Get(body: map<string, Json>, key: string): (r: Option<Json>)
    ensures r.None? <==> key !in body || body[key] == JNull
    ensures r.Some? ==> key in body && body[key] == r.value && r.value != JNull
  {
    if key in body && body[key] != JNull then Some(body[key]) else None
  }

  /** Python `n == v` for a decoded value: numbers compare by value, booleans as 0 and 1. */
  predicate IntEquals(n: int, v: Json)
    ensures IntEquals(n, v) <==> v == JNum(n) || (n == 1 && v == JBool(true)) || (n == 0 && v == JBool(false))
  {
    match v
    case JNum(m) => m == n
    case JBool(b) => n == (if b then 1 else 0)
    case _ => false
  }

  predicate IsDigit(c: char) { '0' <= c <= '9' }

  predicate AllDigits(s: string) {
    |s| > 0 && forall i :: 0 <= i < |s| ==> IsDigit(s[i])
  }

  /** The value of a string of decimal digits, most significant first. */
  function DigitsValue(s: string): nat
    requires forall i :: 0 <= i < |s| ==> IsDigit(s[i])
  {
    if s == [] then 0
    else
      assert IsDigit(s[|s| - 1]);
      10 * DigitsValue(s[..|s| - 1]) + (s[|s| - 1] as int - '0' as int)
  }

  /** A decimal integer literal with an optional sign, as the database reads it; `None` if malformed. */
  function ParseInt(s: string): (r: Option<int>)
    ensures r.None? <==> !AllDigits(s) && !(|s| > 0 && (s[0] == '-' || s[0] == '+') && AllDigits(s[1..]))
    ensures r.Some? && AllDigits(s) ==> r.value >= 0
  {
    if AllDigits(s) then Some(DigitsValue(s))
    else if |s| > 0 && s[0] == '-' && AllDigits(s[1..]) then Some(-(DigitsValue(s[1..]) as int))
    else if |s| > 0 && s[0] == '+' && AllDigits(s[1..]) then Some(DigitsValue(s[1..]))
    else None
  }

  /** A leading zero does not change the value of a digit string. */
  lemma {:induction false} LeadingZeroValue(s: string)
    requires forall i :: 0 <= i < |s| ==> IsDigit(s[i])
    ensures DigitsValue("0" + s) == DigitsValue(s)
  {
    var t := "0" + s;
    if s == [] {
      assert t[..0] == "";
    } else {
      assert t[..|t| - 1] == "0" + s[..|s| - 1];
      assert t[|t| - 1] == s[|s| - 1];
      LeadingZeroValue(s[..|s| - 1]);
    }
  }

  /** Zero padding and an explicit `+` leave a literal's value alone. */
  lemma ParseIgnoresPadding(s: string)
    requires AllDigits(s)
    ensures ParseInt("0" + s) == ParseInt(s)
    ensures ParseInt("+" + s) == ParseInt(s)
    ensures ParseInt("-" + s) == Some(-(ParseInt(s).value))
  {
    var z, p, m := "0" + s, "+" + s, "-" + s;
    assert AllDigits(z);
    LeadingZeroValue(s);
    assert p[1..] == s && m[1..] == s;
    assert !IsDigit(p[0]) && !IsDigit(m[0]);
  }

  /** Decimal rendering of a natural number, the partner of DigitsValue. */
  function ShowNat(n: nat): (s: string)
    ensures forall i :: 0 <= i < |s| ==> IsDigit(s[i])
    ensures |s| > 0
  {
    var d := ['0' + (n % 10) as char];
    if n < 10 then d else ShowNat(n / 10) + d
  }

  /** Decimal rendering of an integer with a leading '-' when negative. */
  function ShowInt(n: int): string {
    if n < 0 then "-" + ShowNat(-n) else ShowNat(n)
  }

  lemma {:induction false} DigitsOfShowNat(n: nat)
    ensures DigitsValue(ShowNat(n)) == n
  {
    var d := ['0' + (n % 10) as char];
    if n >= 10 {
      var s := ShowNat(n / 10) + d;
      assert s[..|s| - 1] == ShowNat(n / 10);
      DigitsOfShowNat(n / 10);
    }
  }

  /** Reading back the rendering of any integer gives that integer. */
  lemma ParseShowInt(n: int)
    ensures ParseInt(ShowInt(n)) == Some(n)
  {
    if n < 0 {
      var s := ShowInt(n);
      assert s[1..] == ShowNat(-n);
      DigitsOfShowNat(-n);
      assert !AllDigits(s);
    } else {
      DigitsOfShowNat(n);
    }
  }

  /** What an integer column receives for a JSON value; `None` when the database rejects it. */
  function ToInt(v: Json): (r: Option<int>)
    ensures v.JNum? ==> r == Some(v.n)
    ensures v.JStr? ==> r == ParseInt(v.s)
    ensures r.Some? ==> v.JNum? || v.JStr?
  {
    match v
    case JNum(n) => Some(n)
    case JStr(s) => ParseInt(s)
    case _ => None
  }

  /** What a text column receives for a JSON value; `None` when it is not a string. */
  function ToText(v: Json): (r: Option<string>)
    ensures r.Some? <==> v.JStr?
    ensures r.Some? ==> v == JStr(r.value)
  {
    match v
    case JStr(s) => Some(s)
    case _ => None
  }
}
