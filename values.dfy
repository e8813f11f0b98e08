/**
  JavaScript values as the resource layer sees them.

  Arrays and plain objects are references: `===` on them compares identity,
  which the model makes explicit with a Handle, one per allocated array or
  object. Strings, numbers and booleans compare by value.
 */
module Values {

  /** The identity of one JavaScript array or object. */
  class Handle {
    constructor () { }
  }

  /** The own enumerable properties of an object, in `Object.keys` order. */
  type Props = seq<(string, Value)>

  datatype Value =
    | Undefined
    | Null
    | Str(text: string)
    | Num(num: int)
    | Bool(flag: bool)
    | Arr(ref: Handle, elems: seq<Value>)
    | Obj(ref: Handle, props: Props)

  /** A token names a cached resource: `type` selects the registry entry
      (`kind` here, since `type` is a keyword) and `model` is its template. */
  datatype Token = Token(ref: Handle, kind: string, model: Value)

  /** `typeof v`; `null` and arrays are both "object". */
  function TypeOf(v: Value): (t: string)
    ensures t == "undefined" <==> v.Undefined?
    ensures t == "object" <==> v.Null? || v.Arr? || v.Obj?
  {
    match v
    case Undefined => "undefined"
    case Str(_) => "string"
    case Num(_) => "number"
    case Bool(_) => "boolean"
    case _ => "object"
  }

  const Primitives: seq<string> := ["string", "number", "boolean"]

  /** `isPrimitive`: the `typeof` of `v` is one of `Primitives`, which holds
      exactly for strings, numbers and booleans. */
  predicate IsPrimitive(v: Value)
    ensures IsPrimitive(v) <==> v.Str? || v.Num? || v.Bool?
  {
    TypeOf(v) in Primitives
  }

  /** `a === b`: identity for arrays and objects, value for the rest. */
  predicate StrictEquals(a: Value, b: Value)
  {
    match a
    case Undefined => b.Undefined?
    case Null => b.Null?
    case Str(x) => b.Str? && b.text == x
    case Num(x) => b.Num? && b.num == x
    case Bool(x) => b.Bool? && b.flag == x
    case Arr(h, _) => b.Arr? && b.ref == h
    case Obj(h, _) => b.Obj? && b.ref == h
  }

  /** `===` is an equivalence that never relates values of different
      `typeof`, and that coincides with `==` on everything but references. */
  lemma StrictEqualsLaws(a: Value, b: Value, c: Value)
    ensures StrictEquals(a, a)
    ensures StrictEquals(a, b) ==> StrictEquals(b, a)
    ensures StrictEquals(a, b) && StrictEquals(b, c) ==> StrictEquals(a, c)
    ensures StrictEquals(a, b) ==> TypeOf(a) == TypeOf(b)
    ensures !a.Arr? && !a.Obj? ==> (StrictEquals(a, b) <==> a == b)
  {
  }

  /** JavaScript truthiness (`!v` is false): every value but `undefined`,
      `null`, `false`, `0` and the empty string. */
  predicate Truthy(v: Value)
    ensures !Truthy(v) <==> v == Undefined || v == Null || v == Bool(false) || v == Num(0) || v == Str("")
  {
    match v
    case Undefined => false
    case Null => false
    case Str(s) => s != ""
    case Num(n) => n != 0
    case Bool(b) => b
    case _ => true
  }

  /** The keys of a property list, in order (`Object.keys`). */
  function KeysOf(props: Props): (keys: seq<string>)
    ensures |keys| == |props|
    ensures forall i :: 0 <= i < |props| ==> keys[i] == props[i].0
  {
    seq(|props|, i requires 0 <= i < |props| => props[i].0)
  }

  /** A sequence without repeated elements. */
  ghost predicate Distinct(keys: seq<string>)
  {
    forall i, j :: 0 <= i < j < |keys| ==> keys[i] != keys[j]
  }

  /** What a real object always satisfies: no key appears twice. */
  ghost predicate WellFormed(v: Value)
  {
    v.Obj? ==> Distinct(KeysOf(v.props))
  }

  /** The own property `key` of an object, `undefined` when it has none. */
  function Own(props: Props, key: string): (v: Value)
    ensures key !in KeysOf(props) ==> v.Undefined?
  {
    if |props| == 0 then Undefined
    else if props[0].0 == key then props[0].1
    else
      assert KeysOf(props[1..]) == KeysOf(props)[1..];
      Own(props[1..], key)
  }

  lemma {:induction false} OwnAt(props: Props, i: nat)
    requires Distinct(KeysOf(props))
    requires i < |props|
    ensures Own(props, props[i].0) == props[i].1
  {
    if i > 0 {
      assert props[0].0 != props[i].0;
      assert KeysOf(props[1..]) == KeysOf(props)[1..];
      OwnAt(props[1..], i - 1);
    }
  }

  /** In an object without repeated keys, `key` holds the value of the one
      entry that carries it. */
  lemma OwnDistinct(props: Props, key: string)
    ensures Distinct(KeysOf(props)) ==>
      forall i :: 0 <= i < |props| && props[i].0 == key ==> Own(props, key) == props[i].1
  {
    if Distinct(KeysOf(props)) {
      forall i | 0 <= i < |props| && props[i].0 == key
        ensures Own(props, key) == props[i].1
      {
        OwnAt(props, i);
      }
    }
  }

  predicate AllDigits(s: string)
  {
    forall i :: 0 <= i < |s| ==> '0' <= s[i] <= '9'
  }

  /** The number a string of decimal digits spells. */
  function DecimalValue(s: string): nat
    requires AllDigits(s)
  {
    if |s| == 0 then 0
    else DecimalValue(s[..|s| - 1]) * 10 + (s[|s| - 1] as int - '0' as int)
  }

  /** A canonical array index: decimal digits, no leading zero, below 2^32 - 1. */
  predicate IsArrayIndex(key: string)
  {
    && |key| > 0
    && AllDigits(key)
    && (key[0] != '0' || |key| == 1)
    && DecimalValue(key) < 0xFFFF_FFFF
  }

  /** `v[key]` on a value that is neither `undefined` nor `null`: an object's
      own property, an array's element or its "length". Lookups that would
      reach a string's characters or the prototype chain give `undefined`. */
  function Get(v: Value, key: string): (r: Value)
    ensures v.Obj? && Distinct(KeysOf(v.props)) ==>
      forall i :: 0 <= i < |v.props| && v.props[i].0 == key ==> r == v.props[i].1
    ensures v.Obj? && key !in KeysOf(v.props) ==> r.Undefined?
    ensures v.Arr? && key == "length" ==> r == Num(|v.elems|)
    ensures v.Arr? && IsArrayIndex(key) && DecimalValue(key) < |v.elems| ==> r == v.elems[DecimalValue(key)]
    ensures v.Arr? && key != "length" && !(IsArrayIndex(key) && DecimalValue(key) < |v.elems|) ==> r.Undefined?
    ensures !v.Obj? && !v.Arr? ==> r.Undefined?
  {
    match v
    case Obj(_, props) =>
      OwnDistinct(props, key);
      Own(props, key)
    case Arr(_, elems) =>
      if key == "length" then Num(|elems|)
      else if IsArrayIndex(key) && DecimalValue(key) < |elems| then elems[DecimalValue(key)]
      else Undefined
    case _ => Undefined
  }
}
