/** The JavaScript values the poll server's handlers meet beyond strings and sets: numbers, as
    `||` and `*` treat them, and the members every `{}` object inherits from
    `Object.prototype`. */
module JsValues {

  /** A JavaScript number. -0 and +0 are both `Finite(0.0)`: no handler tells them apart. */
  datatype JsNumber = Finite(value: real) | NaN | Infinity(negative: bool)

  /** Whether `||` keeps a number: every number except 0, -0 and NaN. */
  predicate Truthy(n: JsNumber)
  {
    !(n.NaN? || (n.Finite? && n.value == 0.0))
  }

  /** Half a unit in the last place above `Number.MAX_VALUE`, that is 2^1024 - 2^970: the
      smallest magnitude that rounds to an infinity under round-to-nearest, ties-to-even
      (section 6.1.6.1 of ECMA-262). */
  const OverflowBound: real := 179769313486231580793728971405303415079934132710037826936173778980444968292764750946649017977587207096330286416692887910946555547851940402630657488671505820681908902000708383676273854845817711531764475730270069855571366959622842914819860834936475292719074168444365510704342711559699508093042880177904174497792.0

  function Abs(x: real): real
  {
    if x < 0.0 then -x else x
  }

  /** `n * k` for a positive finite factor `k`: a product too large in magnitude for a double
      is an infinity of the sign of `n`; an infinity or NaN stays what it is. */
  function Scale(n: JsNumber, k: real): (r: JsNumber)
    requires k > 0.0
    ensures Truthy(r) <==> Truthy(n)
    ensures r.NaN? <==> n.NaN?
    ensures r.Infinity? <==> n.Infinity? || (n.Finite? && Abs(n.value * k) >= OverflowBound)
    ensures n.Infinity? ==> r == n
    ensures r.Infinity? && n.Finite? ==> (r.negative <==> n.value < 0.0)
    ensures r.Finite? ==> r.value == n.value * k && Abs(r.value) < OverflowBound
  {
    if n.Finite? then
      if Abs(n.value * k) >= OverflowBound then Infinity(n.value < 0.0) else Finite(n.value * k)
    else n
  }

  /** A finite limit of 10^306 seconds is an infinite number of milliseconds. */
  lemma ScaleOverflows()
    ensures Scale(Finite(1000000000000000000000000000000000000000000000000000000000000000000000000000000000000000000000000000000000000000000000000000000000000000000000000000000000000000000000000000000000000000000000000000000000000000000000000000000000000000000000000000000000000000000000000000000000000000000000000000000000000000000.0), 1000.0) == Infinity(false)
  {
  }

  /** The properties of `Object.prototype`, which a lookup on a `{}` object finds when the
      object has no own property of that name. */
  const ProtoMembers: set<string> := {
    "__proto__", "constructor", "hasOwnProperty", "isPrototypeOf", "propertyIsEnumerable",
    "toLocaleString", "toString", "valueOf",
    "__defineGetter__", "__defineSetter__", "__lookupGetter__", "__lookupSetter__"
  }

  /** `String(Object.prototype[name])`: the prototype object itself for `__proto__`, the
      `Object` function for `constructor`, and a built-in function for the rest. */
  function InheritedText(name: string): (t: string)
    requires name in ProtoMembers
    ensures t != []
  {
    if name == "__proto__" then "[object Object]"
    else if name == "constructor" then "function Object() { [native code] }"
    else "function " + name + "() { [native code] }"
  }
}
