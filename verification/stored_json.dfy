/**
 * JSON values as the browser's local storage hands them back after `JSON.parse`,
 * and `Object.entries` over them: the key/value view the reactions and scores
 * stores normalise.  Numbers are integers here.
 */
module StoredJson {
  import opened Wrappers
  import opened JsText

  datatype Json =
    | JNull
    | JBool(b: bool)
    | JNumber(n: int)
    | JString(s: string)
    | JArray(items: seq<Json>)
    | JObject(fields: map<string, Json>)

  /** What reading the stored text gave: nothing stored (or ''), text that does not parse, or a value. */
  datatype Stored = NothingStored | Unparsable | Parsed(value: Json)

  /** `typeof v === 'object' && v !== null`. */
  predicate IsObject(v: Json) {
    v.JArray? || v.JObject?
  }

  /** Distinct positions have distinct decimal names. */
  lemma DecimalInjective(i: nat, j: nat)
    ensures Decimal(i) == Decimal(j) ==> i == j
  {
    ParseDecimalOfDecimal(i);
    ParseDecimalOfDecimal(j);
  }

  /** The property names of an array or string: its positions in decimal. */
  function IndexKeyed(items: seq<Json>): map<string, Json> {
    if |items| == 0 then map[]
    else
      var n := |items| - 1;
      IndexKeyed(items[..n])[Decimal(n) := items[n]]
  }

  /** Every position of an array or string is a property, holding the item there. */
  lemma {:induction false} IndexKeyedItems(items: seq<Json>, i: nat)
    requires i < |items|
    ensures Decimal(i) in IndexKeyed(items) && IndexKeyed(items)[Decimal(i)] == items[i]
  {
    var n := |items| - 1;
    if i < n {
      IndexKeyedItems(items[..n], i);
      DecimalInjective(i, n);
    }
  }

  /** The decimal names of the positions below `n`. */
  function Positions(n: nat): set<string> {
    set i: nat | i < n :: Decimal(i)
  }

  /** The property names of an array or string are exactly its positions in decimal, each holding its item. */
  lemma IndexKeyedSpec(items: seq<Json>)
    ensures IndexKeyed(items).Keys == Positions(|items|)
    ensures forall i :: 0 <= i < |items| ==> Decimal(i) in IndexKeyed(items) && IndexKeyed(items)[Decimal(i)] == items[i]
  {
    forall i | 0 <= i < |items| ensures Decimal(i) in IndexKeyed(items) && IndexKeyed(items)[Decimal(i)] == items[i] {
      IndexKeyedItems(items, i);
    }
    forall k | k in IndexKeyed(items) ensures k in Positions(|items|) {
      IndexKeyedNames(items, k);
    }
  }

  /** Every property name of an array or string is one of its positions in decimal. */
  lemma {:induction false} IndexKeyedNames(items: seq<Json>, k: string)
    requires k in IndexKeyed(items)
    ensures exists i: nat :: i < |items| && k == Decimal(i)
  {
    var n := |items| - 1;
    if k != Decimal(n) {
      IndexKeyedNames(items[..n], k);
    }
  }

  /** A string's characters as the one-character strings `Object.entries` pairs with its positions. */
  function CharItems(s: string): (r: seq<Json>)
    ensures |r| == |s| && forall i :: 0 <= i < |s| ==> r[i] == JString([s[i]])
  {
    seq(|s|, i requires 0 <= i < |s| => JString([s[i]]))
  }

  /**
   * `Object.entries(v)` as a map: an object's own properties, an array's or a
   * string's positions (a string's values are its one-character strings),
   * nothing for a number or a boolean; `None` when it throws (`null`).
   */
  function Entries(v: Json): (r: Option<map<string, Json>>)
    ensures r.None? <==> v.JNull?
    ensures v.JObject? ==> r == Some(v.fields)
    ensures v.JBool? || v.JNumber? ==> r == Some(map[])
    ensures v.JArray? ==>
              && r.Some? && r.value.Keys == Positions(|v.items|)
              && forall i :: 0 <= i < |v.items| ==> r.value[Decimal(i)] == v.items[i]
    ensures v.JString? ==>
              && r.Some? && r.value.Keys == Positions(|v.s|)
              && forall i :: 0 <= i < |v.s| ==> r.value[Decimal(i)] == JString([v.s[i]])
  {
    match v
    case JNull => None
    case JBool(_) => Some(map[])
    case JNumber(_) => Some(map[])
    case JString(s) => IndexKeyedSpec(CharItems(s)); Some(IndexKeyed(CharItems(s)))
    case JArray(items) => IndexKeyedSpec(items); Some(IndexKeyed(items))
    case JObject(fields) => Some(fields)
  }
}
