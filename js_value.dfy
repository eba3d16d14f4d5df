/** JavaScript values as the query compiler sees them, and the two pieces of
    the language runtime it relies on: `typeof v === "object"` and
    `Object.keys` followed by property lookup. */
module JsValue {

  /** A JavaScript value. Numbers are modelled as integers. An object lists
      its own enumerable properties in the order `Object.keys` yields them. */
  datatype Value =
    | Undefined
    | Null
    | Bool(b: bool)
    | Num(n: int)
    | Str(s: string)
    | Arr(items: seq<Value>)
    | Obj(props: seq<(string, Value)>)

  /** The only exception the core can raise itself: `Object.keys` applied to
      `null` or `undefined` throws a TypeError. */
  datatype Error = TypeError

  datatype Result<+T> = Ok(value: T) | Err(error: Error)

  /** `typeof v === "object"`: true of null, arrays and plain objects. */
  predicate IsObjectType(v: Value) {
    v.Null? || v.Arr? || v.Obj?
  }

  predicate IsDigit(c: char) {
    '0' <= c <= '9'
  }

  function DigitChar(d: nat): (c: char)
    requires d < 10
    ensures IsDigit(c) && c as int - '0' as int == d
  {
    ('0' as int + d) as char
  }

  /** The property name of array (or string) index `n`: its decimal numeral. */
  function IndexKey(n: nat): (r: string)
    ensures |r| > 0 && forall i :: 0 <= i < |r| ==> IsDigit(r[i])
    ensures n < 10 <==> |r| == 1
  {
    if n < 10 then [DigitChar(n)] else IndexKey(n / 10) + [DigitChar(n % 10)]
  }

  /** Different indices have different property names. */
  lemma {:induction false} IndexKeyInjective(m: nat, n: nat)
    requires IndexKey(m) == IndexKey(n)
    ensures m == n
  {
    if m >= 10 && n >= 10 {
      var km, kn := IndexKey(m), IndexKey(n);
      assert km[|km| - 1] == kn[|kn| - 1];
      assert DigitChar(m % 10) == DigitChar(n % 10);
      assert km[..|km| - 1] == IndexKey(m / 10);
      assert kn[..|kn| - 1] == IndexKey(n / 10);
      IndexKeyInjective(m / 10, n / 10);
    } else if m < 10 && n < 10 {
      assert DigitChar(m) == IndexKey(m)[0];
    }
  }

  /** `Object.keys(v)` paired with `v[key]` for each key. A string exposes
      one single-character string per index; numbers and booleans expose
      nothing; null and undefined make `Object.keys` throw. */
  function OwnKeys(v: Value): (r: Result<seq<(string, Value)>>)
    ensures r.Err? <==> v.Null? || v.Undefined?
    ensures v.Obj? ==> r == Ok(v.props)
    ensures v.Arr? ==> r.Ok? && |r.value| == |v.items|
    ensures v.Arr? ==> forall i :: 0 <= i < |v.items| ==> r.value[i] == (IndexKey(i), v.items[i])
    ensures v.Str? ==> r.Ok? && |r.value| == |v.s|
    ensures v.Str? ==> forall i :: 0 <= i < |v.s| ==> r.value[i] == (IndexKey(i), Str([v.s[i]]))
    ensures v.Bool? || v.Num? ==> r == Ok([])
  {
    match v
    case Undefined => Err(TypeError)
    case Null => Err(TypeError)
    case Bool(_) => Ok([])
    case Num(_) => Ok([])
    case Str(s) => Ok(seq(|s|, i requires 0 <= i < |s| => (IndexKey(i), Str([s[i]]))))
    case Arr(a) => Ok(seq(|a|, i requires 0 <= i < |a| => (IndexKey(i), a[i])))
    case Obj(ps) => Ok(ps)
  }

  /** No key occurs twice, as in every JavaScript object. */
  predicate DistinctKeys(es: seq<(string, Value)>) {
    forall i, j :: 0 <= i < j < |es| ==> es[i].0 != es[j].0
  }

  /** The keys `Object.keys` gives an array or a string are pairwise distinct. */
  lemma OwnKeysOfIndexedDistinct(v: Value)
    requires v.Arr? || v.Str?
    ensures DistinctKeys(OwnKeys(v).value)
  {
    var es := OwnKeys(v).value;
    forall i, j | 0 <= i < j < |es|
      ensures es[i].0 != es[j].0
    {
      if es[i].0 == es[j].0 {
        IndexKeyInjective(i, j);
      }
    }
  }
}
