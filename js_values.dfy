/**
 * The JavaScript values the validation chain stores and passes around, with the two
 * coercions the chain applies to them: `String(v)` and the text normalisation of
 * `setValue` (src/index.ts:159-163).
 */
module JsValues {

  /**
   * A JavaScript value. Numbers are modelled as integers; an object (or array) is
   * represented by the two texts the chain can produce from it: what
   * `JSON.stringify` gives and what `String` gives.
   */
  datatype Value =
    | Undefined
    | Null
    | Bool(b: bool)
    | Num(n: int)
    | Str(s: string)
    | Obj(json: string, text: string)

  /** JavaScript falsiness (`!v`), as used by `default` and `addResultValues`. */
  predicate Falsy(v: Value)
  {
    v == Undefined || v == Null || v == Bool(false) || v == Num(0) || v == Str("")
  }

  function Digit(d: nat): (c: char)
    requires d < 10
    ensures c as int - '0' as int == d
  {
    ('0' as int + d) as char
  }

  /** Decimal text of a natural number, as JavaScript prints it. */
  function NatToDec(n: nat): (r: string)
    ensures |r| >= 1
    ensures '_' !in r
    decreases n
  {
    if n < 10 then [Digit(n)] else NatToDec(n / 10) + [Digit(n % 10)]
  }

  /** Reads decimal text back; only used to show that `NatToDec` is injective. */
  function DecValue(s: string): nat
    decreases |s|
  {
    if s == [] then 0
    else
      var d := s[|s| - 1] as int - '0' as int;
      DecValue(s[..|s| - 1]) * 10 + (if 0 <= d then d else 0)
  }

  lemma {:induction false} DecValueOfNatToDec(n: nat)
    ensures DecValue(NatToDec(n)) == n
    decreases n
  {
    var s := NatToDec(n);
    if n < 10 {
      assert s[..|s| - 1] == [];
    } else {
      assert s[..|s| - 1] == NatToDec(n / 10);
      DecValueOfNatToDec(n / 10);
    }
  }

  lemma NatToDecInjective(a: nat, b: nat)
    requires NatToDec(a) == NatToDec(b)
    ensures a == b
  {
    DecValueOfNatToDec(a);
    DecValueOfNatToDec(b);
  }

  function IntToDec(i: int): string
  {
    if i < 0 then "-" + NatToDec(-i) else NatToDec(i)
  }

  /** JavaScript's `String(v)`. */
  function ToText(v: Value): (r: string)
    ensures v.Str? ==> r == v.s
    ensures v == Undefined ==> r == "undefined"
    ensures v == Null ==> r == "null"
  {
    match v
    case Undefined => "undefined"
    case Null => "null"
    case Bool(b) => if b then "true" else "false"
    case Num(n) => IntToDec(n)
    case Str(s) => s
    case Obj(_, text) => text
  }

  /**
   * The value `setValue` stores when asked to convert to text: objects become their
   * JSON text, other non-strings their `String` text, and `null`/`undefined` the empty
   * string. The result is always text, and text is left as it is.
   */
  function Normalise(v: Value): (r: Value)
    ensures r.Str?
    ensures v.Str? ==> r == v
    ensures v == Undefined || v == Null ==> r == Str("")
    ensures v.Obj? ==> r == Str(v.json)
    ensures v.Bool? || v.Num? ==> r == Str(ToText(v))
  {
    match v
    case Undefined => Str("")
    case Null => Str("")
    case Obj(json, _) => Str(json)
    case Str(_) => v
    case _ => Str(ToText(v))
  }

  lemma NormaliseIdempotent(v: Value)
    ensures Normalise(Normalise(v)) == Normalise(v)
    ensures ToText(Normalise(v)) == Normalise(v).s
  {
  }

  /** `s` starts with `prefix`: what the start-anchored pattern of src/index.ts:196 tests. */
  predicate StartsWith(s: string, prefix: string)
  {
    |prefix| <= |s| && s[..|prefix|] == prefix
  }
}
