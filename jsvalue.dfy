/**
 The slice of JavaScript value semantics the checklist validator relies on:
 parsed JSON values (plus `undefined`), property reads, truthiness, and the
 decimal rendering of an array index inside a template literal.
 */
module JsValue {

  /** A parsed JSON value, plus `undefined` for a key that is not there.
      Numbers are integers: the validator only asks `typeof x === "number"`
      and whether a value is truthy, so NaN, fractions and -0 are left out. */
  datatype Json =
    | Undefined
    | Null
    | Bool(b: bool)
    | Num(n: int)
    | Str(s: string)
    | Arr(elems: seq<Json>)
    | Obj(fields: map<string, Json>)

  /** Reading a property of these throws a TypeError. */
  predicate Nullish(v: Json) {
    v.Undefined? || v.Null?
  }

  /** `base[key]` on a value that does not throw: an object's own entry, and
      `undefined` for a missing key and for every primitive or array (none of
      the keys the validator reads is an index, `length` or a prototype member). */
  function Get(base: Json, key: string): (r: Json)
    requires !Nullish(base)
    ensures r != Undefined ==> base.Obj? && key in base.fields
  {
    if base.Obj? && key in base.fields then base.fields[key] else Undefined
  }

  /** JavaScript's `!!v`: `undefined`, `null`, `false`, `0` and `""` are falsy. */
  predicate Truthy(v: Json)
    ensures Truthy(v) ==> !Nullish(v)
    ensures v.Arr? || v.Obj? ==> Truthy(v)
  {
    match v
    case Undefined => false
    case Null => false
    case Bool(b) => b
    case Num(n) => n != 0
    case Str(s) => s != ""
    case Arr(_) => true
    case Obj(_) => true
  }

  predicate IsDigit(c: char) {
    '0' <= c <= '9'
  }

  predicate AllDigits(s: string) {
    forall i :: 0 <= i < |s| ==> IsDigit(s[i])
  }

  function DigitChar(d: nat): (c: char)
    requires d < 10
    ensures IsDigit(c)
  {
    ('0' as int + d) as char
  }

  function DigitValue(c: char): nat
    requires IsDigit(c)
  {
    c as int - '0' as int
  }

  /** `${n}` for a non-negative integer: its decimal digits, no leading zero. */
  function NatToString(n: nat): (s: string)
    ensures |s| >= 1 && AllDigits(s)
    ensures |s| > 1 ==> s[0] != '0'
    decreases n
  {
    if n < 10 then [DigitChar(n)] else NatToString(n / 10) + [DigitChar(n % 10)]
  }

  /** The value of a string of decimal digits; the reading back of NatToString. */
  function ParseNat(s: string): nat
    requires AllDigits(s)
  {
    if s == [] then 0 else 10 * ParseNat(s[..|s| - 1]) + DigitValue(s[|s| - 1])
  }

  lemma {:induction false} ParseNatToString(n: nat)
    ensures ParseNat(NatToString(n)) == n
    decreases n
  {
    var s := NatToString(n);
    if n >= 10 {
      ParseNatToString(n / 10);
      assert s[..|s| - 1] == NatToString(n / 10);
    }
  }

  /** Distinct indices render as distinct strings. */
  lemma NatToStringInjective(m: nat, n: nat)
    ensures NatToString(m) == NatToString(n) ==> m == n
  {
    ParseNatToString(m);
    ParseNatToString(n);
  }
}
