/**
 * The slice of JavaScript semantics the memory client relies on: JSON-like
 * values plus `undefined`, truthiness, property and index access, string
 * conversion for `+`, and `String.prototype.split` / `Array.prototype.join`.
 */
module Js {

  datatype Option<T> = None | Some(value: T)

  /** A parsed JSON value, or `undefined`. Numbers are integers here. */
  datatype JsValue =
    | Undefined
    | Null
    | Bool(b: bool)
    | Num(n: int)
    | Str(s: string)
    | Arr(elems: seq<JsValue>)
    | Obj(props: map<string, JsValue>)

  /** The only exception the modelled code can raise: reading a property of null or undefined. */
  datatype JsError = TypeError

  /** What a call does: returns a value or throws. */
  datatype Outcome<T> = Returned(value: T) | Threw(error: JsError)

  /** A JSON object, such as the body of an HTTP response. */
  type Body = map<string, JsValue>

  /** `v === null || v === undefined`: the values whose properties cannot be read. */
  predicate Nullish(v: JsValue) {
    v.Undefined? || v.Null?
  }

  /** ToBoolean: what `if (v)` and `a && b` test. */
  predicate Truthy(v: JsValue) {
    match v
    case Undefined => false
    case Null => false
    case Bool(b) => b
    case Num(n) => n != 0
    case Str(s) => s != ""
    case Arr(_) => true
    case Obj(_) => true
  }

  /** `body[key]` on a JSON object: undefined when the key is missing. */
  function Field(body: Body, key: string): JsValue {
    if key in body then body[key] else Undefined
  }

  /** `v.key` for a named property; reading through null or undefined throws, so it is excluded. */
  function Get(v: JsValue, key: string): JsValue
    requires !Nullish(v)
  {
    match v
    case Obj(props) => Field(props, key)
    case Arr(es) => if key == "length" then Num(|es|) else Undefined
    case Str(s) => if key == "length" then Num(|s|) else Undefined
    case _ => Undefined
  }

  /** `v[i]`: an array element, a one-character string, or an object's property named by the digits of `i`. */
  function Index(v: JsValue, i: nat): JsValue
    requires !Nullish(v)
  {
    match v
    case Arr(es) => if i < |es| then es[i] else Undefined
    case Str(s) => if i < |s| then Str([s[i]]) else Undefined
    case Obj(props) => Field(props, NatToDecimal(i))
    case _ => Undefined
  }

  function DigitChar(d: nat): char
    requires d < 10
  {
    "0123456789"[d]
  }

  /** The decimal numeral of `n`, as JavaScript writes an integer. */
  function NatToDecimal(n: nat): string
    decreases n
  {
    if n < 10 then [DigitChar(n)] else NatToDecimal(n / 10) + [DigitChar(n % 10)]
  }

  function IntToDecimal(i: int): string {
    if i < 0 then "-" + NatToDecimal(-i) else NatToDecimal(i)
  }

  /** ToString, as applied by `'text' + v`; arrays join their elements with commas, null and undefined elements as empty. */
  function ToJsString(v: JsValue): string
    decreases v
  {
    match v
    case Undefined => "undefined"
    case Null => "null"
    case Bool(b) => if b then "true" else "false"
    case Num(n) => IntToDecimal(n)
    case Str(s) => s
    case Arr(es) =>
      Join(seq(|es|, i requires 0 <= i < |es| => if Nullish(es[i]) then "" else ToJsString(es[i])), ",")
    case Obj(_) => "[object Object]"
  }

  /** `parts.join(sep)`. */
  function Join(parts: seq<string>, sep: string): string
    decreases |parts|
  {
    if |parts| == 0 then ""
    else if |parts| == 1 then parts[0]
    else parts[0] + sep + Join(parts[1..], sep)
  }

  /** `s.split(sep)` for a one-character separator: one piece more than there are separators, none holding one. */
  function Split(s: string, sep: char): (pieces: seq<string>)
    ensures |pieces| == multiset(s)[sep] + 1
    ensures forall i | 0 <= i < |pieces| :: sep !in pieces[i]
    decreases |s|
  {
    if s == [] then [""]
    else
      var rest := Split(s[1..], sep);
      assert s == [s[0]] + s[1..];
      if s[0] == sep then [""] + rest
      else [[s[0]] + rest[0]] + rest[1..]
  }

  /** Joining `[x] + rest` puts the separator between `x` and the join of a non-empty `rest`. */
  lemma JoinCons(x: string, rest: seq<string>, sep: string)
    requires |rest| > 0
    ensures Join([x] + rest, sep) == x + sep + Join(rest, sep)
  {
  }

  /** Prefixing the first piece prefixes the join. */
  lemma JoinExtendFirst(c: string, rest: seq<string>, sep: string)
    requires |rest| > 0
    ensures Join([c + rest[0]] + rest[1..], sep) == c + Join(rest, sep)
  {
  }

  /** Joining the pieces of a split with the separator gives back the string. */
  lemma {:induction false} JoinSplit(s: string, sep: char)
    ensures Join(Split(s, sep), [sep]) == s
    decreases |s|
  {
    if s != [] {
      JoinSplit(s[1..], sep);
      var rest := Split(s[1..], sep);
      assert s == [s[0]] + s[1..];
      if s[0] == sep {
        assert Split(s, sep) == [""] + rest;
        JoinCons("", rest, [sep]);
      } else {
        assert Split(s, sep) == [[s[0]] + rest[0]] + rest[1..];
        JoinExtendFirst([s[0]], rest, [sep]);
      }
    }
  }
}
