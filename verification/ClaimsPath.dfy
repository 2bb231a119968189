/**
  Claims Path Pointers (section 7 of OpenID4VP 1.0): the layer-by-layer selection, the concrete
  places a pointer denotes, and selection in a larger presentation.
*/
module ClaimsPath {
  import opened Prelude
  import opened CborValue

  datatype PathComponent = Key(key: Text) | Index(index: nat) | AllElements | Unrepresentable

  type Presented = map<Text, AttributeValue>

  // ---------------------------------------------------------------------------------------------
  // Selection, layer by layer
  // ---------------------------------------------------------------------------------------------

  /** What one component selects below one value. */
  function SelectOne(v: AttributeValue, c: PathComponent): seq<AttributeValue> {
    match (c, v)
    case (Key(k), MapValue(fields)) => if k in fields then [fields[k]] else []
    case (Index(i), ArrayValue(elements)) => if i < |elements| then [elements[i]] else []
    case (AllElements, ArrayValue(elements)) => elements
    case _ => []
  }

  /** `select`: one component applied to the whole selection, in order. */
  function Select(current: seq<AttributeValue>, c: PathComponent): seq<AttributeValue> {
    if current == [] then [] else SelectOne(current[0], c) + Select(current[1..], c)
  }

  method ResolvePath(root: Presented, path: seq<PathComponent>) returns (selected: seq<AttributeValue>)
    ensures selected == Resolved(root, path)
  {
    if path == [] || !path[0].Key? { return []; }
    var first, rest := path[0].key, path[1..];
    selected := if first in root then [root[first]] else [];
    if first in root { FollowSingle(root[first], rest); }
    assert rest[0..] == rest;
    for i := 0 to |rest|
      invariant FollowAll(selected, rest[i..]) == Resolved(root, path)
    {
      if selected == [] { break; }
      assert rest[i..][0] == rest[i] && rest[i..][1..] == rest[i + 1..];
      SelectThenFollow(selected, rest[i..]);
      selected := Select(selected, rest[i]);
    }
    if selected != [] {
      FollowNothing(selected);
    }
  }

  // ---------------------------------------------------------------------------------------------
  // The meaning: following the pointer from each node
  // ---------------------------------------------------------------------------------------------

  function Follow(v: AttributeValue, path: seq<PathComponent>): seq<AttributeValue>
    decreases |path|, 0, 0
  {
    if path == [] then [v] else FollowAll(SelectOne(v, path[0]), path[1..])
  }

  function FollowAll(vs: seq<AttributeValue>, path: seq<PathComponent>): seq<AttributeValue>
    decreases |path|, 1, |vs|
  {
    if vs == [] then [] else Follow(vs[0], path) + FollowAll(vs[1..], path)
  }

  /** The first component must be a key of the presentation. */
  function Resolved(root: Presented, path: seq<PathComponent>): seq<AttributeValue> {
    if path == [] || !path[0].Key? || path[0].key !in root then []
    else Follow(root[path[0].key], path[1..])
  }

  lemma {:induction false} FollowAllAppend(a: seq<AttributeValue>, b: seq<AttributeValue>, path: seq<PathComponent>)
    ensures FollowAll(a + b, path) == FollowAll(a, path) + FollowAll(b, path)
  {
    hide Follow;
    var ab := a + b;
    if a == [] {
      assert ab == b && [] + FollowAll(b, path) == FollowAll(b, path);
    } else {
      FollowAllAppend(a[1..], b, path);
      assert ab[0] == a[0] && ab[1..] == a[1..] + b;
      var first, more, last := Follow(a[0], path), FollowAll(a[1..], path), FollowAll(b, path);
      assert FollowAll(ab, path) == first + FollowAll(ab[1..], path);
      ConcatAssoc(first, more, last);
    }
  }

  lemma FollowSingle(v: AttributeValue, path: seq<PathComponent>)
    ensures FollowAll([v], path) == Follow(v, path)
  {
    hide Follow;
    assert [v][1..] == [] && Follow(v, path) + [] == Follow(v, path);
    assert FollowAll([], path) == [];
  }

  /** A layer at a time is the same as a node at a time. */
  lemma {:induction false} SelectThenFollow(vs: seq<AttributeValue>, path: seq<PathComponent>)
    requires path != []
    ensures FollowAll(Select(vs, path[0]), path[1..]) == FollowAll(vs, path)
    decreases |vs|
  {
    if vs == [] {
    } else {
      hide SelectOne;
      SelectThenFollow(vs[1..], path);
      FollowAllAppend(SelectOne(vs[0], path[0]), Select(vs[1..], path[0]), path[1..]);
    }
  }

  lemma {:induction false} FollowNothing(vs: seq<AttributeValue>)
    ensures FollowAll(vs, []) == vs
  {
    if vs == [] {
    } else {
      FollowNothing(vs[1..]);
      assert vs == [vs[0]] + vs[1..];
    }
  }

  // ---------------------------------------------------------------------------------------------
  // Concrete places
  // ---------------------------------------------------------------------------------------------

  datatype Place = Field(name: Text) | Element(at: nat)

  /** The value at a concrete place below `v`. */
  function ValueAt(v: AttributeValue, places: seq<Place>): Option<AttributeValue>
    decreases |places|
  {
    if places == [] then Some(v)
    else
      match (places[0], v)
      case (Field(k), MapValue(fields)) => if k in fields then ValueAt(fields[k], places[1..]) else None
      case (Element(i), ArrayValue(elements)) => if i < |elements| then ValueAt(elements[i], places[1..]) else None
      case _ => None
  }

  /** A key matches itself, an index itself, `null` every index; the sentinel matches nothing. */
  predicate Matches(c: PathComponent, p: Place) {
    match (c, p)
    case (Key(k), Field(n)) => k == n
    case (Index(i), Element(j)) => i == j
    case (AllElements, Element(_)) => true
    case _ => false
  }

  predicate AllMatch(path: seq<PathComponent>, places: seq<Place>) {
    |path| == |places| && forall i :: 0 <= i < |path| ==> Matches(path[i], places[i])
  }

  lemma {:induction false} InFollowAll(vs: seq<AttributeValue>, path: seq<PathComponent>, x: AttributeValue)
    ensures x in FollowAll(vs, path) <==> exists i :: 0 <= i < |vs| && x in Follow(vs[i], path)
    decreases |vs|
  {
    hide Follow;
    if vs == [] {
    } else {
      InFollowAll(vs[1..], path, x);
      if x in FollowAll(vs, path) && x !in Follow(vs[0], path) {
        var i :| 0 <= i < |vs[1..]| && x in Follow(vs[1..][i], path);
        assert x in Follow(vs[i + 1], path);
      }
      if i :| 0 <= i < |vs| && x in Follow(vs[i], path) {
        if i > 0 { assert x in Follow(vs[1..][i - 1], path); }
      }
    }
  }

  /** Every selected value sits at a matching place. */
  lemma {:induction false} SelectedHasPlace(v: AttributeValue, path: seq<PathComponent>, x: AttributeValue) returns (places: seq<Place>)
    requires x in Follow(v, path)
    ensures AllMatch(path, places) && ValueAt(v, places) == Some(x)
    decreases |path|
  {
    places := [];
    if path != [] {
      var c := path[0];
      InFollowAll(SelectOne(v, c), path[1..], x);
      var i :| 0 <= i < |SelectOne(v, c)| && x in Follow(SelectOne(v, c)[i], path[1..]);
      var rest := SelectedHasPlace(SelectOne(v, c)[i], path[1..], x);
      places := [match c case Key(k) => Field(k) case Index(j) => Element(j) case _ => Element(i)] + rest;
      assert places[1..] == rest;
      forall j | 0 <= j < |path| ensures Matches(path[j], places[j]) {
        if j > 0 { assert path[j] == path[1..][j - 1] && places[j] == rest[j - 1]; }
      }
    }
  }

  /** Every value at a matching place is selected. */
  lemma {:induction false} PlaceIsSelected(v: AttributeValue, path: seq<PathComponent>, places: seq<Place>)
    requires AllMatch(path, places) && ValueAt(v, places).Some?
    ensures ValueAt(v, places).value in Follow(v, path)
    decreases |path|
  {
    if path != [] {
      var c, x := path[0], ValueAt(v, places).value;
      assert Matches(path[0], places[0]);
      var i := match c case AllElements => places[0].at case _ => 0;
      forall j | 0 <= j < |path[1..]| ensures Matches(path[1..][j], places[1..][j]) {
        assert Matches(path[j + 1], places[j + 1]);
      }
      PlaceIsSelected(SelectOne(v, c)[i], path[1..], places[1..]);
      InFollowAll(SelectOne(v, c), path[1..], x);
    }
  }

  /** A pointer selects exactly the values at the places it denotes. */
  lemma SelectionExact(root: Presented, path: seq<PathComponent>, x: AttributeValue)
    ensures x in Resolved(root, path)
       <==> exists places: seq<Place> ::
              places != [] && places[0].Field? && AllMatch(path, places) && ValueAt(MapValue(root), places) == Some(x)
  {
    if x in Resolved(root, path) {
      var rest := SelectedHasPlace(root[path[0].key], path[1..], x);
      var places := [Field(path[0].key)] + rest;
      assert places[1..] == rest;
      forall j | 0 <= j < |path| ensures Matches(path[j], places[j]) {
        if j > 0 { assert path[j] == path[1..][j - 1] && places[j] == rest[j - 1]; }
      }
    }
    if places: seq<Place> :| places != [] && places[0].Field? && AllMatch(path, places) && ValueAt(MapValue(root), places) == Some(x) {
      assert Matches(path[0], places[0]);
      forall j | 0 <= j < |path[1..]| ensures Matches(path[1..][j], places[1..][j]) {
        assert Matches(path[j + 1], places[j + 1]);
      }
      PlaceIsSelected(root[path[0].key], path[1..], places[1..]);
    }
  }

  /** A path with a malformed component selects nothing. */
  lemma UnrepresentableSelectsNothing(root: Presented, path: seq<PathComponent>)
    requires Unrepresentable in path
    ensures Resolved(root, path) == []
  {
    if Resolved(root, path) != [] {
      hide AllMatch;
      SelectionExact(root, path, Resolved(root, path)[0]);
      var places: seq<Place> :| AllMatch(path, places);
      MatchedHasNoSentinel(path, places);
    }
  }

  lemma MatchedHasNoSentinel(path: seq<PathComponent>, places: seq<Place>)
    requires AllMatch(path, places)
    ensures Unrepresentable !in path
  {
    forall i | 0 <= i < |path| ensures path[i] != Unrepresentable {
      assert Matches(path[i], places[i]);
    }
  }

  // ---------------------------------------------------------------------------------------------
  // Larger presentations
  // ---------------------------------------------------------------------------------------------

  /** `b` has everything `a` has: more keys and longer arrays at any depth, the same scalars. */
  predicate Extends(a: AttributeValue, b: AttributeValue)
    decreases a
  {
    match a
    case MapValue(f) => b.MapValue? && forall k :: k in f ==> k in b.fields && Extends(f[k], b.fields[k])
    case ArrayValue(xs) =>
      b.ArrayValue? && |xs| <= |b.elements| && forall i :: 0 <= i < |xs| ==> Extends(xs[i], b.elements[i])
    case _ => a == b
  }

  predicate ExtendsRoot(a: Presented, b: Presented) {
    Extends(MapValue(a), MapValue(b))
  }

  lemma {:induction false} ValueAtExtends(a: AttributeValue, b: AttributeValue, places: seq<Place>)
    requires Extends(a, b) && ValueAt(a, places).Some?
    ensures ValueAt(b, places).Some? && Extends(ValueAt(a, places).value, ValueAt(b, places).value)
    decreases |places|
  {
    if places != [] {
      match places[0] {
        case Field(k) => ValueAtExtends(a.fields[k], b.fields[k], places[1..]);
        case Element(i) => ValueAtExtends(a.elements[i], b.elements[i], places[1..]);
      }
    }
  }

  /** What is selected in a presentation is still selected, possibly extended, in a larger one. */
  lemma SelectionExtends(a: Presented, b: Presented, path: seq<PathComponent>, x: AttributeValue) returns (y: AttributeValue)
    requires ExtendsRoot(a, b) && x in Resolved(a, path)
    ensures y in Resolved(b, path) && Extends(x, y)
  {
    SelectionExact(a, path, x);
    var places: seq<Place> :|
      places != [] && places[0].Field? && AllMatch(path, places) && ValueAt(MapValue(a), places) == Some(x);
    ValueAtExtends(MapValue(a), MapValue(b), places);
    y := ValueAt(MapValue(b), places).value;
    SelectionExact(b, path, y);
  }

  // ---------------------------------------------------------------------------------------------
  // Satisfiable paths
  // ---------------------------------------------------------------------------------------------

  /** A value in which `path` selects `leaf`. */
  function Witness(path: seq<PathComponent>, leaf: AttributeValue): AttributeValue {
    if path == [] then leaf
    else
      var below := Witness(path[1..], leaf);
      match path[0]
      case Key(k) => MapValue(map[k := below])
      case Index(i) => ArrayValue(seq(i + 1, _ => below))
      case AllElements => ArrayValue([below])
      case Unrepresentable => NullValue
  }

  lemma {:induction false} WitnessSelects(path: seq<PathComponent>, leaf: AttributeValue)
    requires Unrepresentable !in path
    ensures leaf in Follow(Witness(path, leaf), path)
    decreases |path|
  {
    if path != [] {
      WitnessSelects(path[1..], leaf);
      var v := Witness(path, leaf);
      var below := SelectOne(v, path[0]);
      assert path[0] in path;
      assert below[0] == Witness(path[1..], leaf);
      InFollowAll(below, path[1..], leaf);
    }
  }

  /** Some presentation makes a path select `leaf` exactly when it starts with a key and has no sentinel. */
  lemma SelectableExact(path: seq<PathComponent>, leaf: AttributeValue)
    ensures (exists root: Presented :: leaf in Resolved(root, path))
       <==> path != [] && path[0].Key? && Unrepresentable !in path
  {
    if root: Presented :| leaf in Resolved(root, path) {
      if Unrepresentable in path { UnrepresentableSelectsNothing(root, path); }
    }
    if path != [] && path[0].Key? && Unrepresentable !in path {
      var root: Presented := map[path[0].key := Witness(path[1..], leaf)];
      WitnessSelects(path[1..], leaf);
      assert leaf in Resolved(root, path);
    }
  }
}
