/**
  Decoded CBOR values (association-list maps, as `ciborium` keeps them) and the SDK's claim values.
  Decoding itself is a parameter of the members that need it.
*/
module CborValue {
  import opened Prelude

  datatype Value =
    | CborInteger(n: int)
    | CborBytes(bytes: Bytes)
    | CborText(text: Text)
    | CborBool(b: bool)
    | CborNull
    | CborFloat(size: nat, bits: nat)
    | CborArray(items: seq<Value>)
    | CborMap(entries: seq<Pair>)
    | CborTag(number: nat, inner: Value)

  datatype Pair = Pair(key: Value, value: Value)

  datatype AttributeValue =
    | TextValue(text: Text)
    | IntegerValue(n: int)
    | BooleanValue(b: bool)
    | BytesValue(bytes: Bytes)
    | MapValue(fields: map<Text, AttributeValue>)
    | ArrayValue(elements: seq<AttributeValue>)
    | NullValue

  type Decoder = Bytes -> Option<Value>

  /** The value of the first entry whose key is the text `key`. */
  function FindText(entries: seq<Pair>, key: Text): Option<Value> {
    if entries == [] then None
    else if entries[0].key == CborText(key) then Some(entries[0].value)
    else FindText(entries[1..], key)
  }

  function GetMapEntry(v: Value, key: Text): Option<Value> {
    if v.CborMap? then FindText(v.entries, key) else None
  }

  function AsText(v: Option<Value>): Option<Text> {
    match v
    case Some(CborText(t)) => Some(t)
    case _ => None
  }

  function AsArray(v: Option<Value>): Option<seq<Value>> {
    match v
    case Some(CborArray(items)) => Some(items)
    case _ => None
  }

  function AsMap(v: Option<Value>): Option<seq<Pair>> {
    match v
    case Some(CborMap(entries)) => Some(entries)
    case _ => None
  }

  function GetText(v: Value, key: Text): Option<Text> {
    AsText(GetMapEntry(v, key))
  }

  /** An integer as `i64`; integers outside that range read as absent. */
  function IntegerLabel(v: Value): Option<int> {
    if v.CborInteger? && InI64(v.n) then Some(v.n) else None
  }

  function GetInteger(v: Value, key: Text): Option<int> {
    match GetMapEntry(v, key)
    case Some(x) => IntegerLabel(x)
    case None => None
  }

  /** The byte string inside a `#6.24(bstr)` value. */
  function UnwrapTagged(v: Value): Option<Bytes> {
    if v.CborTag? && v.number == TAG_ENCODED_CBOR && v.inner.CborBytes? then Some(v.inner.bytes) else None
  }

  function WrapTagged(bytes: Bytes): Value {
    CborTag(TAG_ENCODED_CBOR, CborBytes(bytes))
  }

  /** The presentation projection of a decoded value; later text keys win, other keys are dropped. */
  function CborToAttribute(v: Value): AttributeValue {
    match v
    case CborText(t) => TextValue(t)
    case CborInteger(n) => if InI64(n) then IntegerValue(n) else NullValue
    case CborBool(b) => BooleanValue(b)
    case CborBytes(bytes) => BytesValue(bytes)
    case CborArray(items) => ArrayValue(AttributesOf(items))
    case CborMap(entries) => MapValue(FieldsOf(entries))
    case CborTag(_, inner) => CborToAttribute(inner)
    case CborNull => NullValue
    case CborFloat(_, _) => NullValue
  }

  function AttributesOf(items: seq<Value>): seq<AttributeValue> {
    if items == [] then [] else [CborToAttribute(items[0])] + AttributesOf(items[1..])
  }

  function FieldsOf(entries: seq<Pair>): map<Text, AttributeValue> {
    if entries == [] then map[]
    else
      var first := PairAttribute(entries[0]);
      var later := FieldsOf(entries[1..]);
      if entries[0].key.CborText? then map[entries[0].key.text := first] + later else later
  }

  function PairAttribute(p: Pair): AttributeValue {
    CborToAttribute(p.value)
  }

  // ---------------------------------------------------------------------------------------------
  // Lookup
  // ---------------------------------------------------------------------------------------------

  predicate HasKey(entries: seq<Pair>, key: Text) {
    exists e :: e in entries && e.key == CborText(key)
  }

  /** Entry `i` is the first one whose key is the text `key`. */
  predicate FirstWithKey(entries: seq<Pair>, key: Text, i: nat) {
    && i < |entries| && entries[i].key == CborText(key)
    && forall j :: 0 <= j < i ==> entries[j].key != CborText(key)
  }

  /** A lookup finds the first entry with the key, and nothing when there is none. */
  lemma {:induction false} FindTextExact(entries: seq<Pair>, key: Text)
    ensures FindText(entries, key).Some? <==> HasKey(entries, key)
    ensures forall i: nat :: FirstWithKey(entries, key, i) ==> FindText(entries, key) == Some(entries[i].value)
  {
    if entries != [] {
      var rest := entries[1..];
      FindTextExact(rest, key);
      assert entries == [entries[0]] + rest;
      forall i: nat | FirstWithKey(entries, key, i) ensures FindText(entries, key) == Some(entries[i].value) {
        if i > 0 {
          forall j | 0 <= j < i - 1 ensures rest[j].key != CborText(key) { assert entries[j + 1] == rest[j]; }
          assert FirstWithKey(rest, key, i - 1);
        }
      }
    }
  }

  // ---------------------------------------------------------------------------------------------
  // What a claim value says of the decoded one
  // ---------------------------------------------------------------------------------------------

  function Untagged(v: Value): Value {
    if v.CborTag? then Untagged(v.inner) else v
  }

  /** Entry `i` is the last one whose key is the text `key`. */
  predicate LastWithKey(entries: seq<Pair>, key: Text, i: nat) {
    && i < |entries| && entries[i].key == CborText(key)
    && forall j :: i < j < |entries| ==> entries[j].key != CborText(key)
  }

  /** Read from the claim value: what it is the projection of, under any tags. */
  ghost predicate Projects(v: Value, a: AttributeValue)
    decreases a
  {
    var u := Untagged(v);
    match a
    case TextValue(t) => u == CborText(t)
    case IntegerValue(n) => u == CborInteger(n) && I64_MIN <= n <= I64_MAX
    case BooleanValue(b) => u == CborBool(b)
    case BytesValue(bytes) => u == CborBytes(bytes)
    case ArrayValue(elements) =>
      && u.CborArray? && |u.items| == |elements|
      && forall i :: 0 <= i < |elements| ==> Projects(u.items[i], elements[i])
    case MapValue(fields) =>
      && u.CborMap?
      && (forall key :: key in fields <==> HasKey(u.entries, key))
      && forall key, i: nat :: key in fields && LastWithKey(u.entries, key, i) ==> Projects(u.entries[i].value, fields[key])
    case NullValue => u.CborNull? || u.CborFloat? || (u.CborInteger? && !(I64_MIN <= u.n <= I64_MAX))
  }

  /** A decoded value has exactly one projection, the one that is disclosed. */
  lemma {:induction false} ProjectionExact(v: Value, a: AttributeValue)
    ensures CborToAttribute(v) == a <==> Projects(v, a)
  {
    hide AttributesOf, FieldsOf, HasKey, LastWithKey;
    match v {
      case CborTag(_, inner) => ProjectionExact(inner, a);
      case CborArray(items) =>
        if a.ArrayValue? { ElementsProject(items, a.elements); }
      case CborMap(entries) =>
        if a.MapValue? { FieldsProject(entries, a.fields); }
      case _ =>
    }
  }

  lemma {:induction false} ElementsProject(items: seq<Value>, elements: seq<AttributeValue>)
    ensures AttributesOf(items) == elements
       <==> |items| == |elements| && forall i :: 0 <= i < |elements| ==> Projects(items[i], elements[i])
  {
    hide CborToAttribute, Projects;
    if items != [] && elements != [] {
      ProjectionExact(items[0], elements[0]);
      ElementsProject(items[1..], elements[1..]);
      assert elements == [elements[0]] + elements[1..];
      if |items| == |elements| && forall i :: 0 <= i < |elements[1..]| ==> Projects(items[1..][i], elements[1..][i]) {
        forall i | 0 < i < |elements| ensures Projects(items[i], elements[i]) {
          assert Projects(items[1..][i - 1], elements[1..][i - 1]);
        }
      }
    }
  }

  lemma {:induction false} LastOne(entries: seq<Pair>, key: Text) returns (i: nat)
    requires HasKey(entries, key)
    ensures LastWithKey(entries, key, i)
  {
    var n := |entries| - 1;
    if entries[n].key == CborText(key) {
      i := n;
    } else {
      assert entries == entries[..n] + [entries[n]];
      i := LastOne(entries[..n], key);
    }
  }

  lemma {:induction false} FieldAt(entries: seq<Pair>, key: Text, i: nat)
    requires LastWithKey(entries, key, i)
    ensures key in FieldsOf(entries) && FieldsOf(entries)[key] == CborToAttribute(entries[i].value)
  {
    hide CborToAttribute;
    if i > 0 {
      FieldAt(entries[1..], key, i - 1);
    } else {
      NoField(entries[1..], key);
    }
  }

  lemma {:induction false} NoField(entries: seq<Pair>, key: Text)
    ensures key in FieldsOf(entries) <==> HasKey(entries, key)
  {
    hide CborToAttribute;
    if entries != [] {
      NoField(entries[1..], key);
      assert entries == [entries[0]] + entries[1..];
    }
  }

  lemma {:induction false} PairProjects(p: Pair, a: AttributeValue)
    ensures CborToAttribute(p.value) == a <==> Projects(p.value, a)
  {
    ProjectionExact(p.value, a);
  }

  lemma {:induction false} FieldsProject(entries: seq<Pair>, fields: map<Text, AttributeValue>)
    ensures FieldsOf(entries) == fields
       <==> && (forall key :: key in fields <==> HasKey(entries, key))
            && forall key, i: nat :: key in fields && LastWithKey(entries, key, i) ==> Projects(entries[i].value, fields[key])
  {
    hide FieldsOf, CborToAttribute, Projects, HasKey;
    forall key ensures key in FieldsOf(entries) <==> HasKey(entries, key) {
      NoField(entries, key);
    }
    forall key, i: nat | key in fields && LastWithKey(entries, key, i)
      ensures key in FieldsOf(entries) && (FieldsOf(entries)[key] == fields[key] <==> Projects(entries[i].value, fields[key]))
    {
      FieldAt(entries, key, i);
      PairProjects(entries[i], fields[key]);
    }
    if (forall key :: key in fields <==> HasKey(entries, key))
       && forall key, i: nat :: key in fields && LastWithKey(entries, key, i) ==> Projects(entries[i].value, fields[key])
    {
      forall key | key in fields ensures FieldsOf(entries)[key] == fields[key] {
        var i := LastOne(entries, key);
      }
    }
  }
}
