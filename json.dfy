/** Attribute values as the store client returns them, and their JSON encoding
    with `decimal_conversion` as the fallback (app/utils/scheduler.py; the copy
    in app/views/scheduler.py is identical). The store returns every number as
    a `Decimal`; the encoder handles strings, booleans, `None` and lists itself
    and hands anything else to the fallback. */
module Json {
  import opened Wrappers

  /** A stored attribute value. `Num` is a `Decimal`; `Other` is any value the
      encoder does not know (a string set, binary data), named by its type. */
  datatype Value =
    | Str(s: string)
    | Num(n: real)
    | Bool(b: bool)
    | Null
    | List(elems: seq<Value>)
    | Other(typeName: string)

  datatype JsonValue =
    | JStr(s: string)
    | JInt(i: int)
    | JBool(b: bool)
    | JNull
    | JArray(elems: seq<JsonValue>)

  datatype TypeError = TypeError(message: string)

  /** `type(obj).__name__`. */
  function TypeName(v: Value): string {
    match v
    case Str(_) => "str"
    case Num(_) => "Decimal"
    case Bool(_) => "bool"
    case Null => "NoneType"
    case List(_) => "list"
    case Other(name) => name
  }

  /** Python's `int(d)` for a finite `Decimal`: rounds toward zero. */
  function Truncate(d: real): (r: int)
    ensures 0.0 <= d ==> 0 <= r && r as real <= d < r as real + 1.0
    ensures d < 0.0 ==> r <= 0 && r as real - 1.0 < d <= r as real
  {
    if d >= 0.0 then d.Floor else -((-d).Floor)
  }

  /** `decimal_conversion(obj)`: a `Decimal` becomes an integer, rounded toward
      zero; anything else raises `TypeError` naming its type. */
  function DecimalConversion(v: Value): (r: Result<int, TypeError>)
    ensures r.Success? <==> v.Num?
    ensures v.Num? && 0.0 <= v.n ==> 0 <= r.value && r.value as real <= v.n < r.value as real + 1.0
    ensures v.Num? && v.n < 0.0 ==> r.value <= 0 && r.value as real - 1.0 < v.n <= r.value as real
    ensures r.Failure? ==> r.error == TypeError("Object of type '" + TypeName(v) + "' is not JSON serializable")
  {
    if v.Num? then Success(Truncate(v.n))
    else Failure(TypeError("Object of type '" + TypeName(v) + "' is not JSON serializable"))
  }

  /** An integral `Decimal` converts exactly. */
  lemma DecimalConversionExact(k: int)
    ensures DecimalConversion(Num(k as real)) == Success(k)
  {
  }

  /** A value the encoder can write: nothing of an unknown type, at any depth. */
  predicate Encodable(v: Value) {
    match v
    case Other(_) => false
    case List(es) => forall i :: 0 <= i < |es| ==> Encodable(es[i])
    case _ => true
  }

  /** `json.dumps(v, default=decimal_conversion)`, as a value. */
  function Dump(v: Value): (r: Result<JsonValue, TypeError>)
    ensures r.Success? <==> Encodable(v)
  {
    match v
    case Str(s) => Success(JStr(s))
    case Bool(b) => Success(JBool(b))
    case Null => Success(JNull)
    case List(es) =>
      (match DumpAll(es)
       case Success(js) => Success(JArray(js))
       case Failure(e) => Failure(e))
    case _ =>
      (match DecimalConversion(v)
       case Success(i) => Success(JInt(i))
       case Failure(e) => Failure(e))
  }

  /** The elements of a list, in order; the first failure is raised. */
  function DumpAll(es: seq<Value>): (r: Result<seq<JsonValue>, TypeError>)
    ensures r.Success? <==> forall i :: 0 <= i < |es| ==> Encodable(es[i])
    ensures r.Success? ==> |r.value| == |es|
    decreases es
  {
    if |es| == 0 then Success([])
    else
      match Dump(es[0])
      case Failure(e) => Failure(e)
      case Success(j) =>
        match DumpAll(es[1..])
        case Failure(e) => Failure(e)
        case Success(js) =>
          assert forall i :: 1 <= i < |es| ==> es[i] == es[1..][i - 1];
          Success([j] + js)
  }

  /** Reading the JSON back, with JSON integers taken as numbers. */
  function Load(j: JsonValue): Value {
    match j
    case JStr(s) => Str(s)
    case JInt(i) => Num(i as real)
    case JBool(b) => Bool(b)
    case JNull => Null
    case JArray(js) => List(LoadAll(js))
  }

  function LoadAll(js: seq<JsonValue>): (r: seq<Value>)
    ensures |r| == |js|
    ensures forall i :: 0 <= i < |js| ==> r[i] == Load(js[i])
  {
    if |js| == 0 then [] else [Load(js[0])] + LoadAll(js[1..])
  }

  /** Numbers that are whole, at any depth. */
  predicate Whole(v: Value) {
    match v
    case Num(n) => n == n.Floor as real
    case List(es) => forall i :: 0 <= i < |es| ==> Whole(es[i])
    case _ => true
  }

  /** Encoding loses nothing for values whose numbers are all whole; a
      fractional number comes back rounded toward zero. */
  lemma {:induction false} DumpRoundTrip(v: Value)
    requires Encodable(v) && Whole(v)
    ensures Load(Dump(v).value) == v
  {
    if v.List? {
      DumpAllRoundTrip(v.elems);
    } else if v.Num? {
      WholeNumberExact(v.n);
    }
  }

  lemma WholeNumberExact(n: real)
    requires n == n.Floor as real
    ensures Load(Dump(Num(n)).value) == Num(n)
  {
    assert Truncate(n) as real == n;
  }

  lemma {:induction false} DumpAllRoundTrip(es: seq<Value>)
    requires forall i :: 0 <= i < |es| ==> Encodable(es[i]) && Whole(es[i])
    ensures LoadAll(DumpAll(es).value) == es
    decreases es
  {
    if |es| > 0 {
      DumpRoundTrip(es[0]);
      assert forall i :: 1 <= i < |es| ==> es[i] == es[1..][i - 1];
      DumpAllRoundTrip(es[1..]);
      assert DumpAll(es).value == [Dump(es[0]).value] + DumpAll(es[1..]).value;
      assert es == [es[0]] + es[1..];
    }
  }

  /** A fractional number is not preserved: 2.5 comes back as 2, -2.5 as -2. */
  lemma FractionRoundsTowardZero()
    ensures Load(Dump(Num(2.5)).value) == Num(2.0)
    ensures Load(Dump(Num(-2.5)).value) == Num(-2.0)
  {
  }

  /** A whole item (attribute map) encoded as a JSON object; `None` when the
      encoder raises on one of its values. */
  function DumpItem(item: map<string, Value>): (r: Option<map<string, JsonValue>>)
    ensures r.Some? <==> forall a :: a in item ==> Encodable(item[a])
    ensures r.Some? ==> r.value.Keys == item.Keys
    ensures r.Some? ==> forall a :: a in item ==> Dump(item[a]).Success? && r.value[a] == Dump(item[a]).value
  {
    if forall a :: a in item ==> Encodable(item[a]) then
      Some(map a | a in item :: Dump(item[a]).value)
    else None
  }

  /** An encoded item whose numbers are whole reads back attribute by
      attribute as the item. */
  lemma DumpItemRoundTrip(item: map<string, Value>)
    requires forall a :: a in item ==> Encodable(item[a]) && Whole(item[a])
    ensures DumpItem(item).Some?
    ensures var js := DumpItem(item).value; (map a | a in js :: Load(js[a])) == item
  {
    var js := DumpItem(item).value;
    forall a | a in item ensures Load(js[a]) == item[a] {
      DumpRoundTrip(item[a]);
    }
  }
}
