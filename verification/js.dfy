/**
 The slice of JavaScript semantics the `/generate-otp` handler relies on:
 values produced by `JSON.parse` (section 25.5.1 of ECMA-262) with integer
 numbers, `undefined`, thrown exceptions, property access on the names the
 handler reads, ToBoolean (section 7.1.2), ToNumber (section 7.1.4) and the
 member dropping of `JSON.stringify` (section 25.5.2).
 */
module Js {
  import opened Options
  import opened Decimal

  /** A JSON value. An object is the map from its member names to their
      values; the order of its members is not kept. */
  datatype Json =
    | JNull
    | JBool(b: bool)
    | JNum(n: int)
    | JStr(s: string)
    | JArr(elems: seq<Json>)
    | JObj(members: map<string, Json>)

  /** A value the handler holds: a JSON value, `undefined`, or a built-in
      function object (only `Array.prototype.keys` is reachable). */
  datatype Value = Undefined | Val(json: Json) | BuiltinFunction

  datatype ErrorKind = TypeError | RangeError | SyntaxError | SystemError | LibraryError

  /** A thrown Error object: its constructor and its `message`. */
  datatype Exception = Exception(kind: ErrorKind, message: string)

  /** The completion of an evaluation step: a value, or a thrown exception
      that propagates to the nearest enclosing `try`. */
  datatype Completion<+T> = Normal(value: T) | Throw(exception: Exception) {
    predicate IsFailure() {
      Throw?
    }

    function PropagateFailure<U>(): Completion<U>
      requires Throw?
    {
      Throw(exception)
    }

    function Extract(): T
      requires Normal?
    {
      value
    }
  }

  /* ---------------- objects ---------------- */

  /** The value of an own member of an object, if it has one. */
  function Lookup(members: map<string, Json>, key: string): Option<Json> {
    if key in members then Some(members[key]) else None
  }

  /** The object `JSON.parse` builds from the members of an object text, in
      text order: a later member with the same name overwrites an earlier one
      (CreateDataProperty in section 25.5.1 of ECMA-262). */
  function ObjectOf(ms: seq<(string, Json)>): map<string, Json> {
    if ms == [] then map[] else ObjectOf(ms[..|ms| - 1])[ms[|ms| - 1].0 := ms[|ms| - 1].1]
  }

  /** A name is present exactly when some member carries it, and its value is
      that of the last member that does. */
  lemma {:induction false} ObjectOfSpec(ms: seq<(string, Json)>, key: string)
    ensures key in ObjectOf(ms) <==> exists k | 0 <= k < |ms| :: ms[k].0 == key
    ensures key in ObjectOf(ms) ==> exists k | 0 <= k < |ms| ::
      ms[k] == (key, ObjectOf(ms)[key]) && forall k' | k < k' < |ms| :: ms[k'].0 != key
  {
    if ms != [] {
      var n := |ms| - 1;
      var init := ms[..n];
      ObjectOfSpec(init, key);
      if ms[n].0 != key {
        if key in ObjectOf(init) {
          var k :| 0 <= k < n && init[k] == (key, ObjectOf(init)[key])
            && forall k' | k < k' < n :: init[k'].0 != key;
          assert ms[k] == (key, ObjectOf(ms)[key]);
        }
        if exists k | 0 <= k < |ms| :: ms[k].0 == key {
          var k :| 0 <= k < |ms| && ms[k].0 == key;
          assert init[k].0 == key;
        }
      } else {
        assert ms[n] == (key, ObjectOf(ms)[key]);
      }
    }
  }

  /** Without duplicate names, every member of the text is found with its own value. */
  lemma ObjectOfDistinct(ms: seq<(string, Json)>, i: nat)
    requires i < |ms| && forall j, k | 0 <= j < k < |ms| :: ms[j].0 != ms[k].0
    ensures Lookup(ObjectOf(ms), ms[i].0) == Some(ms[i].1)
  {
    ObjectOfSpec(ms, ms[i].0);
  }

  /** The property names the handler reads. */
  datatype Property =
    | Email | Keys | Kid | Status | Message | Data
    | OneTimePasscode | ExpiresAt | WorkvivoUserId | OrganisationId | LoginUrl

  function Name(p: Property): string {
    match p
    case Email => "email"
    case Keys => "keys"
    case Kid => "kid"
    case Status => "status"
    case Message => "message"
    case Data => "data"
    case OneTimePasscode => "one_time_passcode"
    case ExpiresAt => "expires_at"
    case WorkvivoUserId => "workvivo_user_id"
    case OrganisationId => "organisation_id"
    case LoginUrl => "login_url"
  }

  /** The TypeError V8 throws for a property read on `undefined` or `null`. */
  function ReadError(base: string, key: string): Exception {
    Exception(TypeError, "Cannot read properties of " + base + " (reading '" + key + "')")
  }

  /** `base.p`. Objects answer with their own members; arrays inherit `keys`
      from Array.prototype; no other inherited property has one of the
      handler's names. */
  function Get(base: Value, p: Property): (r: Completion<Value>)
    ensures r.Throw? <==> base == Undefined || base == Val(JNull)
    ensures r.Throw? ==> r.exception.kind == TypeError
  {
    match base
    case Undefined => Throw(ReadError("undefined", Name(p)))
    case BuiltinFunction => Normal(Undefined)
    case Val(j) =>
      match j
      case JNull => Throw(ReadError("null", Name(p)))
      case JObj(members) => Normal(Present(Lookup(members, Name(p))))
      case JArr(_) => if p == Keys then Normal(BuiltinFunction) else Normal(Undefined)
      case _ => Normal(Undefined)
  }

  /** Reading a property of an object never throws and gives its member, or
      undefined when the object has none. */
  lemma GetMember(members: map<string, Json>, p: Property)
    ensures Get(Val(JObj(members)), p) == Normal(Present(Lookup(members, Name(p))))
    ensures Name(p) !in members ==> Get(Val(JObj(members)), p) == Normal(Undefined)
  {
  }

  /** A member that is present is read as it is. */
  lemma GetPresent(members: map<string, Json>, p: Property, j: Json)
    requires Lookup(members, Name(p)) == Some(j)
    ensures Get(Val(JObj(members)), p) == Normal(Val(j))
  {
  }

  /** `base[0]`: the first element of an array, the first character of a string. */
  function Index0(base: Value): (r: Completion<Value>)
    ensures r.Throw? <==> base == Undefined || base == Val(JNull)
  {
    match base
    case Undefined => Throw(ReadError("undefined", "0"))
    case BuiltinFunction => Normal(Undefined)
    case Val(j) =>
      match j
      case JNull => Throw(ReadError("null", "0"))
      case JArr(elems) => if elems == [] then Normal(Undefined) else Normal(Val(elems[0]))
      case JStr(s) => if s == "" then Normal(Undefined) else Normal(Val(JStr(s[..1])))
      case JObj(members) => Normal(Present(Lookup(members, "0")))
      case _ => Normal(Undefined)
  }

  /** A member's value, or undefined for a missing member. */
  function Present(o: Option<Json>): (v: Value)
    ensures v != BuiltinFunction
    ensures v.Val? <==> o.Some?
  {
    if o.Some? then Val(o.value) else Undefined
  }

  /* ---------------- conversions ---------------- */

  /** ToBoolean of section 7.1.2 of ECMA-262 (no NaN among the numbers here). */
  predicate Truthy(v: Value) {
    match v
    case Undefined => false
    case BuiltinFunction => true
    case Val(j) =>
      match j
      case JNull => false
      case JBool(b) => b
      case JNum(n) => n != 0
      case JStr(s) => s != ""
      case _ => true
  }

  /** The falsy values are exactly undefined, null, false, 0 and the empty string. */
  lemma FalsyValues(v: Value)
    ensures !Truthy(v) <==> v in {Undefined, Val(JNull), Val(JBool(false)), Val(JNum(0)), Val(JStr(""))}
  {
  }

  /** A JavaScript number as far as this model needs one. */
  datatype Number = Finite(n: int) | NaN

  /** StringToNumber for the strings an optional sign and decimal digits
      make up; the empty string is 0, and any other string is NaN here. */
  function StringToNumber(s: string): Number {
    if s == "" then Finite(0)
    else if s[0] == '-' && |s| > 1 && AllDigits(s[1..]) then Finite(-(DigitsValue(s[1..]) as int))
    else if s[0] == '+' && |s| > 1 && AllDigits(s[1..]) then Finite(DigitsValue(s[1..]))
    else if AllDigits(s) then Finite(DigitsValue(s))
    else NaN
  }

  /** Number::toString of an integer: decimal digits, a minus sign when negative. */
  function IntegerString(n: int): (s: string)
    ensures s != "" && (n < 0 <==> s[0] == '-')
  {
    if n < 0 then "-" + NaturalString(-n) else NaturalString(n)
  }

  function NaturalString(n: nat): (s: string)
    ensures s != "" && AllDigits(s)
  {
    if n < 10 then [DigitChar(n)] else NaturalString(n / 10) + [DigitChar(n % 10)]
  }

  lemma {:induction false} DigitsValueOfNaturalString(n: nat)
    ensures DigitsValue(NaturalString(n)) == n
  {
    if n >= 10 {
      var s := NaturalString(n);
      assert s[..|s| - 1] == NaturalString(n / 10);
      DigitsValueOfNaturalString(n / 10);
    }
  }

  /** Reading back the decimal string of an integer gives the integer. */
  lemma StringToNumberOfIntegerString(n: int)
    ensures StringToNumber(IntegerString(n)) == Finite(n)
  {
    if n < 0 {
      assert IntegerString(n)[1..] == NaturalString(-n);
      DigitsValueOfNaturalString(-n);
    } else {
      DigitsValueOfNaturalString(n);
    }
  }

  /** The TypeError of OrdinaryToPrimitive (section 7.1.1.1 of ECMA-262) when
      neither `valueOf` nor `toString` gives a primitive. */
  const NoPrimitive := Exception(TypeError, "Cannot convert object to primitive value")

  /** Values whose conversion to a primitive throws. A parsed object inherits
      `valueOf`, which answers the object itself, and `toString`, which answers
      "[object Object]"; an own `toString` member shadows the latter, and as no
      JSON value is callable, the conversion is left without a primitive. An
      array converts through `join`, which converts each element in turn. */
  predicate Unconvertible(j: Json) {
    match j
    case JObj(members) => "toString" in members
    case JArr(elems) => exists k | 0 <= k < |elems| :: Unconvertible(elems[k])
    case _ => false
  }

  /** ToNumber of section 7.1.4 of ECMA-262: it throws for the values that have
      no primitive, and otherwise gives the number of the primitive. */
  function ToNumber(v: Value): (r: Completion<Number>)
    ensures r.Throw? ==> r.exception == NoPrimitive
  {
    match v
    case Undefined => Normal(NaN)
    case BuiltinFunction => Normal(NaN)
    case Val(j) => if Unconvertible(j) then Throw(NoPrimitive) else Normal(PrimitiveNumber(j))
  }

  /** The number of the primitive of a convertible JSON value. Objects become
      "[object Object]", which is NaN; an array becomes the comma-joined string
      of its elements, so only an empty or one-element array can be numeric. */
  function PrimitiveNumber(j: Json): Number {
    match j
    case JNull => Finite(0)
    case JBool(b) => Finite(if b then 1 else 0)
    case JNum(n) => Finite(n)
    case JStr(s) => StringToNumber(s)
    case JArr(elems) => ArrayToNumber(elems)
    case JObj(_) => NaN
  }

  /** ToNumber of the string `join` makes of an array: null becomes the empty
      string and a nested array its own join. */
  function ArrayToNumber(elems: seq<Json>): Number
    decreases elems
  {
    if elems == [] then Finite(0)
    else if |elems| > 1 then NaN
    else
      match elems[0]
      case JNull => StringToNumber("")
      case JBool(b) => StringToNumber(if b then "true" else "false")
      case JNum(n) => StringToNumber(IntegerString(n))
      case JStr(s) => StringToNumber(s)
      case JArr(inner) => ArrayToNumber(inner)
      case JObj(_) => StringToNumber("[object Object]")
  }

  /** A number, or a string or one-element array of its decimal digits, converts to that number. */
  lemma ToNumberOfInteger(n: int)
    ensures ToNumber(Val(JNum(n))) == Normal(Finite(n))
    ensures ToNumber(Val(JStr(IntegerString(n)))) == Normal(Finite(n))
    ensures ToNumber(Val(JArr([JNum(n)]))) == Normal(Finite(n))
  {
    StringToNumberOfIntegerString(n);
  }

  /** ToNumber throws exactly for an object with its own `toString` member and
      for an array that holds such an object at any depth of nested arrays;
      any other object is NaN. */
  lemma ToNumberThrows(members: map<string, Json>, elems: seq<Json>, i: nat)
    ensures ToNumber(Val(JObj(members))) == if "toString" in members then Throw(NoPrimitive) else Normal(NaN)
    ensures i < |elems| && Unconvertible(elems[i]) ==> ToNumber(Val(JArr(elems))) == Throw(NoPrimitive)
    ensures ToNumber(Val(JArr(elems))).Throw? ==> exists k | 0 <= k < |elems| :: Unconvertible(elems[k])
    ensures ToNumber(Val(JArr([JArr([JObj(members)])]))).Throw? <==> "toString" in members
  {
    var inner := JArr([JObj(members)]);
    assert Unconvertible(inner) <==> "toString" in members by {
      assert inner.elems[0] == JObj(members);
    }
    assert Unconvertible(JArr([inner])) <==> Unconvertible(inner) by {
      assert [inner][0] == inner;
    }
  }

  /* ---------------- JSON.stringify of an object literal ---------------- */

  /** The value of a key in an object literal, `undefined` when absent. */
  function FieldValue(fields: seq<(string, Value)>, key: string): Value {
    if fields == [] then Undefined
    else if fields[|fields| - 1].0 == key then fields[|fields| - 1].1
    else FieldValue(fields[..|fields| - 1], key)
  }

  predicate DistinctKeys(fields: seq<(string, Value)>) {
    forall i, j | 0 <= i < j < |fields| :: fields[i].0 != fields[j].0
  }

  /** The JSON an object literal serialises to: members whose value is
      undefined or a function are left out; a later duplicate key wins. */
  function Stringified(fields: seq<(string, Value)>): (r: Json)
    ensures r.JObj?
  {
    if fields == [] then JObj(map[])
    else
      var rest := Stringified(fields[..|fields| - 1]).members;
      var last := fields[|fields| - 1];
      if last.1.Val? then JObj(rest[last.0 := last.1.json]) else JObj(rest - {last.0})
  }

  /** Reading a member of the serialised object gives the literal's value,
      and a member is present exactly when that value is a JSON value. */
  lemma {:induction false} StringifiedLookup(fields: seq<(string, Value)>, key: string)
    ensures Lookup(Stringified(fields).members, key)
         == (if FieldValue(fields, key).Val? then Some(FieldValue(fields, key).json) else None)
  {
    if fields != [] {
      StringifiedLookup(fields[..|fields| - 1], key);
    }
  }

  /** In a literal without duplicate keys, every key gives its own value. */
  lemma {:induction false} FieldValueDistinct(fields: seq<(string, Value)>, i: nat)
    requires DistinctKeys(fields) && i < |fields|
    ensures FieldValue(fields, fields[i].0) == fields[i].1
  {
    if i < |fields| - 1 {
      FieldValueDistinct(fields[..|fields| - 1], i);
    }
  }

  /** A two-member literal whose values are both JSON serialises to both. */
  lemma StringifiedPair(k1: string, v1: Value, k2: string, v2: Value)
    requires v1.Val? && v2.Val?
    ensures Stringified([(k1, v1), (k2, v2)]) == JObj(map[k1 := v1.json, k2 := v2.json])
  {
    assert [(k1, v1), (k2, v2)][..1] == [(k1, v1)];
    assert [(k1, v1)][..0] == [];
    assert Stringified([(k1, v1)]) == JObj(map[k1 := v1.json]);
  }
}
