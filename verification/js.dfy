/**
  The few JavaScript value semantics the handlers depend on: a request field
  that may be `undefined`, `null` or a value; truthiness of strings and
  numbers; `Math.ceil` of a quotient; and the case-insensitive name match the
  database performs (modelled as ASCII case folding).
 */
module Js {

  /** A request-body field: absent (`undefined`), explicitly `null`, or a value. */
  datatype Field<T> = Undefined | Null | Present(value: T)

  /** A JSON number that may be `NaN` (the result of coercing a non-numeric input). */
  datatype JsNumber = Finite(n: int) | NaN

  /** `!!s` for a string field: present and not the empty string. */
  predicate TruthyStr(f: Field<string>) {
    f.Present? && f.value != ""
  }

  /** `!!n` for a numeric field: present and not zero. */
  predicate TruthyInt(f: Field<int>) {
    f.Present? && f.value != 0
  }

  /** `!!n` for a number that may be NaN. */
  predicate TruthyNumber(x: Field<JsNumber>) {
    x.Present? && x.value.Finite? && x.value.n != 0
  }

  /**
    `Math.ceil(a / b)` for integers. Division by zero yields a non-finite
    number in JavaScript, which is `None` here.
   */
  function CeilDiv(a: int, b: int): (r: Option<int>)
    ensures b == 0 <==> r.None?
    ensures b > 0 ==> r.Some? && (r.value - 1) * b < a <= r.value * b
    ensures b < 0 ==> r.Some? && r.value * b <= a < (r.value - 1) * b
  {
    if b > 0 then Some(-((-a) / b))
    else if b < 0 then Some(-(a / (-b)))
    else None
  }

  datatype Option<T> = None | Some(value: T)

  /** ASCII lower-casing of one character. */
  function LowerChar(c: char): (r: char)
    ensures 'A' <= c <= 'Z' ==> r as int == c as int + 32
    ensures !('A' <= c <= 'Z') ==> r == c
  {
    if 'A' <= c <= 'Z' then (c as int + 32) as char else c
  }

  /** ASCII lower-casing of a string. */
  function Lower(s: string): (r: string)
    ensures |r| == |s|
    ensures forall i :: 0 <= i < |s| ==> r[i] == LowerChar(s[i])
  {
    if |s| == 0 then [] else [LowerChar(s[0])] + Lower(s[1..])
  }

  /** The database's case-insensitive equality on names. */
  predicate EqualsIgnoreCase(a: string, b: string) {
    Lower(a) == Lower(b)
  }

  /** Case-insensitive equality is an equivalence: reflexive, symmetric and transitive. */
  lemma EqualsIgnoreCaseIsEquivalence(a: string, b: string, c: string)
    ensures EqualsIgnoreCase(a, a)
    ensures EqualsIgnoreCase(a, b) ==> EqualsIgnoreCase(b, a)
    ensures EqualsIgnoreCase(a, b) && EqualsIgnoreCase(b, c) ==> EqualsIgnoreCase(a, c)
  {
  }

  /** Two names that differ only in the case of ASCII letters match. */
  lemma {:induction false} CaseVariantsMatch(a: string, b: string)
    requires |a| == |b|
    requires forall i :: 0 <= i < |a| ==> a[i] == b[i] || LowerChar(a[i]) == LowerChar(b[i])
    ensures EqualsIgnoreCase(a, b)
  {
    assert forall i :: 0 <= i < |a| ==> Lower(a)[i] == Lower(b)[i];
  }
}
