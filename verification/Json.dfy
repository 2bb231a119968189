/** JSON values as the repository's library holds them: objects are entry lists with distinct keys. */
module Json {
  import opened Prelude

  /** A number is an integer the library keeps exactly, or a float. */
  datatype Number = Integer(value: int) | Float

  datatype Entry = Entry(key: Text, value: Json)

  datatype Json =
    | Null
    | Bool(flag: bool)
    | Num(number: Number)
    | Str(text: Text)
    | Arr(items: seq<Json>)
    | Obj(entries: seq<Entry>)

  predicate DistinctKeys(es: seq<Entry>) {
    forall i, j :: 0 <= i < j < |es| ==> es[i].key != es[j].key
  }

  predicate WellFormed(v: Json) {
    match v
    case Arr(items) => forall i :: 0 <= i < |items| ==> WellFormed(items[i])
    case Obj(es) => DistinctKeys(es) && forall i :: 0 <= i < |es| ==> WellFormed(es[i].value)
    case _ => true
  }

  function Lookup(es: seq<Entry>, key: Text): Option<Json> {
    if es == [] then None
    else if es[0].key == key then Some(es[0].value)
    else Lookup(es[1..], key)
  }

  /** `Value::get`: a member of an object, nothing of any other value. */
  function Get(v: Json, key: Text): Option<Json> {
    match v
    case Obj(es) => Lookup(es, key)
    case _ => None
  }

  lemma {:induction false} LookupFinds(es: seq<Entry>, key: Text) returns (i: nat)
    requires Lookup(es, key).Some?
    ensures i < |es| && es[i].key == key && Lookup(es, key) == Some(es[i].value)
  {
    if es[0].key == key {
      i := 0;
    } else {
      var j := LookupFinds(es[1..], key);
      i := j + 1;
    }
  }

  lemma {:induction false} LookupAt(es: seq<Entry>, i: nat)
    requires DistinctKeys(es) && i < |es|
    ensures Lookup(es, es[i].key) == Some(es[i].value)
  {
    if i > 0 {
      LookupAt(es[1..], i - 1);
    }
  }

  // ---------------------------------------------------------------------------------------------
  // Text form
  // ---------------------------------------------------------------------------------------------

  /** The library's serializer (which may fail) and parser. */
  datatype JsonCodec = JsonCodec(encode: Json -> Option<Bytes>, decode: Bytes -> Option<Json>)

  /** Byte-wise order, the order in which the library keeps an object's keys. */
  predicate Before(a: Text, b: Text) {
    b != [] && (a == [] || a[0] < b[0] || (a[0] == b[0] && Before(a[1..], b[1..])))
  }

  /** A value the library can hold without a float: keys in order, integers of a machine width. */
  predicate Canonical(v: Json) {
    match v
    case Num(Integer(n)) => I64_MIN <= n < U64_RANGE
    case Num(Float) => false
    case Arr(items) => forall i :: 0 <= i < |items| ==> Canonical(items[i])
    case Obj(es) =>
      && (forall i :: 0 <= i < |es| - 1 ==> Before(es[i].key, es[i + 1].key))
      && (forall i :: 0 <= i < |es| ==> Canonical(es[i].value))
    case _ => true
  }

  /** What is assumed of the library: such a value is written, and read back as it was. */
  ghost predicate Lawful(codec: JsonCodec) {
    forall v: Json {:trigger codec.encode(v)} :: Canonical(v) ==> codec.encode(v).Some? && codec.decode(codec.encode(v).value) == Some(v)
  }
}
