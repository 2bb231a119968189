/**
  The walk over the issuer-signed claims that locates every disclosure, and the two collectors that
  use it.  A callback of the walk that pushes is modelled by the sequence it pushes.
*/
module DisclosurePaths {
  import opened Prelude
  import opened Json
  import opened JsonPointer

  datatype ObjectPropertyPath = ObjectPropertyPath(pointer: Text, selector: Text)

  datatype ArrayElementPath = ArrayElementPath(pointer: Text, topLevelClaim: Text)

  const SD: Text := Lit("_sd")
  const DOTS: Text := Lit("...")

  // ---------------------------------------------------------------------------------------------
  // The walk
  // ---------------------------------------------------------------------------------------------

  /** What the callbacks push, and which array items end the descent. */
  datatype Visitor<!T> = Visitor(
    onKey: (Text, Json, Text) -> seq<T>,
    onItem: (Json, Text, Option<Text>) -> seq<T>,
    terminal: Json -> bool)

  function Below(top: Option<Text>, key: Text): Option<Text> {
    if top.Some? then top else Some(key)
  }

  /** Everything pushed for a value, in order. */
  function Walked<T>(v: Json, pointer: Text, top: Option<Text>, vis: Visitor<T>): seq<T>
    decreases v, 1
  {
    match v
    case Obj(es) => WalkedEntries(es, pointer, top, vis)
    case Arr(items) => WalkedItems(items, pointer, top, vis)
    case _ => []
  }

  function WalkedEntry<T>(e: Entry, pointer: Text, top: Option<Text>, vis: Visitor<T>): seq<T>
    decreases e, 2
  {
    vis.onKey(e.key, e.value, pointer)
    + if e.key == SD then [] else Walked(e.value, pointer + Token(Key(e.key)), Below(top, e.key), vis)
  }

  function WalkedEntries<T>(es: seq<Entry>, pointer: Text, top: Option<Text>, vis: Visitor<T>): seq<T>
    decreases es, 0
  {
    if es == [] then [] else WalkedEntries(es[..|es| - 1], pointer, top, vis) + WalkedEntry(es[|es| - 1], pointer, top, vis)
  }

  function WalkedItem<T>(item: Json, i: nat, pointer: Text, top: Option<Text>, vis: Visitor<T>): seq<T>
    decreases item, 2
  {
    vis.onItem(item, pointer + Token(Index(i)), top)
    + if vis.terminal(item) then [] else Walked(item, pointer + Token(Index(i)), top, vis)
  }

  function WalkedItems<T>(items: seq<Json>, pointer: Text, top: Option<Text>, vis: Visitor<T>): seq<T>
    decreases items, 0
  {
    if items == [] then []
    else WalkedItems(items[..|items| - 1], pointer, top, vis) + WalkedItem(items[|items| - 1], |items| - 1, pointer, top, vis)
  }

  class Collector<T> {
    var out: seq<T>

    constructor ()
      ensures out == []
    {
      out := [];
    }

    /** `walk_disclosure_tree`: depth-first, `_sd` never descended into, a terminal item skipped. */
    method Walk(value: Json, pointer: Text, top: Option<Text>, vis: Visitor<T>)
      modifies this
      ensures out == old(out) + Walked(value, pointer, top, vis)
      decreases value
    {
      hide Walked, WalkedEntries, WalkedEntry, WalkedItems, WalkedItem, Token, Below;
      ghost var before := out;
      NothingWalked(pointer, top, vis);
      match value {
        case Obj(es) =>
          assert es[..0] == [];
          for i := 0 to |es|
            invariant out == before + WalkedEntries(es[..i], pointer, top, vis)
          {
            var key, child := es[i].key, es[i].value;
            EntryStep(before, es, i, pointer, top, vis);
            out := out + vis.onKey(key, child, pointer);
            if key == SD { assert out + [] == out; continue; }
            Walk(child, pointer + Token(Key(key)), Below(top, key), vis);
          }
          assert es[..|es|] == es;
          ObjectIs(es, pointer, top, vis);
        case Arr(items) =>
          assert items[..0] == [];
          for i := 0 to |items|
            invariant out == before + WalkedItems(items[..i], pointer, top, vis)
          {
            ItemStep(before, items, i, pointer, top, vis);
            out := out + vis.onItem(items[i], pointer + Token(Index(i)), top);
            if vis.terminal(items[i]) { assert out + [] == out; continue; }
            Walk(items[i], pointer + Token(Index(i)), top, vis);
          }
          assert items[..|items|] == items;
          ArrayIs(items, pointer, top, vis);
        case _ =>
          ScalarIs(value, pointer, top, vis);
      }
    }
  }

  lemma NothingWalked<T>(pointer: Text, top: Option<Text>, vis: Visitor<T>)
    ensures WalkedEntries([], pointer, top, vis) == [] && WalkedItems([], pointer, top, vis) == []
  {
  }

  lemma ObjectIs<T>(es: seq<Entry>, pointer: Text, top: Option<Text>, vis: Visitor<T>)
    ensures Walked(Obj(es), pointer, top, vis) == WalkedEntries(es, pointer, top, vis)
  {
  }

  lemma ArrayIs<T>(items: seq<Json>, pointer: Text, top: Option<Text>, vis: Visitor<T>)
    ensures Walked(Arr(items), pointer, top, vis) == WalkedItems(items, pointer, top, vis)
  {
  }

  lemma ScalarIs<T>(v: Json, pointer: Text, top: Option<Text>, vis: Visitor<T>)
    requires !v.Obj? && !v.Arr?
    ensures Walked(v, pointer, top, vis) == []
  {
  }

  lemma EntryStep<T>(so: seq<T>, es: seq<Entry>, i: nat, pointer: Text, top: Option<Text>, vis: Visitor<T>)
    requires i < |es|
    ensures so + WalkedEntries(es[..i + 1], pointer, top, vis)
         == so + WalkedEntries(es[..i], pointer, top, vis) + vis.onKey(es[i].key, es[i].value, pointer)
            + if es[i].key == SD then []
              else Walked(es[i].value, pointer + Token(Key(es[i].key)), Below(top, es[i].key), vis)
  {
    hide Walked, Token, Below;
    assert es[..i + 1][..i] == es[..i];
  }

  lemma ItemStep<T>(so: seq<T>, items: seq<Json>, i: nat, pointer: Text, top: Option<Text>, vis: Visitor<T>)
    requires i < |items|
    ensures so + WalkedItems(items[..i + 1], pointer, top, vis)
         == so + WalkedItems(items[..i], pointer, top, vis) + vis.onItem(items[i], pointer + Token(Index(i)), top)
            + if vis.terminal(items[i]) then [] else Walked(items[i], pointer + Token(Index(i)), top, vis)
  {
    hide Walked, Token;
    assert items[..i + 1][..i] == items[..i];
  }

  // ---------------------------------------------------------------------------------------------
  // What the walk reaches
  // ---------------------------------------------------------------------------------------------

  /** The path goes through no `_sd` member and no terminal item. */
  predicate Clear(v: Json, path: Path, terminal: Json -> bool)
    requires Follow(v, path).Some?
    decreases |path|
  {
    path == [] ||
    (var c := Child(v, path[0]).value;
     && (match path[0] case Key(k) => k != SD case Index(_) => !terminal(c))
     && Clear(c, path[1..], terminal))
  }

  /** The first object key on a path. */
  function TopLevel(top: Option<Text>, path: Path): Option<Text>
    decreases |path|
  {
    if path == [] || top.Some? then top
    else TopLevel(match path[0] case Key(k) => Below(top, k) case Index(_) => top, path[1..])
  }

  /** `x` is pushed at this node itself. */
  ghost predicate PushedAt<T>(v: Json, pointer: Text, top: Option<Text>, vis: Visitor<T>, x: T) {
    match v
    case Obj(es) => exists i :: 0 <= i < |es| && x in vis.onKey(es[i].key, es[i].value, pointer)
    case Arr(items) => exists i: nat :: i < |items| && x in vis.onItem(items[i], pointer + Token(Index(i)), top)
    case _ => false
  }

  /** `x` is pushed at the node that `path` leads to. */
  ghost predicate PushedVia<T>(v: Json, pointer: Text, top: Option<Text>, vis: Visitor<T>, path: Path, x: T) {
    && Follow(v, path).Some? && Clear(v, path, vis.terminal)
    && PushedAt(Follow(v, path).value, pointer + Pointer(path), TopLevel(top, path), vis, x)
  }

  lemma EntriesUnfold<T>(es: seq<Entry>, pointer: Text, top: Option<Text>, vis: Visitor<T>, x: T)
    requires es != []
    ensures x in WalkedEntries(es, pointer, top, vis)
       <==> x in WalkedEntries(es[..|es| - 1], pointer, top, vis) || x in WalkedEntry(es[|es| - 1], pointer, top, vis)
  {
    hide WalkedEntry;
  }

  lemma {:induction false} FindEntry<T>(es: seq<Entry>, pointer: Text, top: Option<Text>, vis: Visitor<T>, x: T) returns (i: nat)
    requires x in WalkedEntries(es, pointer, top, vis)
    ensures i < |es| && x in WalkedEntry(es[i], pointer, top, vis)
  {
    hide WalkedEntry;
    i := |es| - 1;
    EntriesUnfold(es, pointer, top, vis, x);
    if x !in WalkedEntry(es[i], pointer, top, vis) {
      i := FindEntry(es[..i], pointer, top, vis, x);
    }
  }

  lemma {:induction false} EntryIsWalked<T>(es: seq<Entry>, i: nat, pointer: Text, top: Option<Text>, vis: Visitor<T>, x: T)
    requires i < |es| && x in WalkedEntry(es[i], pointer, top, vis)
    ensures x in WalkedEntries(es, pointer, top, vis)
  {
    hide WalkedEntry;
    EntriesUnfold(es, pointer, top, vis, x);
    if i < |es| - 1 {
      EntryIsWalked(es[..|es| - 1], i, pointer, top, vis, x);
    }
  }

  lemma ItemsUnfold<T>(items: seq<Json>, pointer: Text, top: Option<Text>, vis: Visitor<T>, x: T)
    requires items != []
    ensures x in WalkedItems(items, pointer, top, vis)
       <==> || x in WalkedItems(items[..|items| - 1], pointer, top, vis)
            || x in WalkedItem(items[|items| - 1], |items| - 1, pointer, top, vis)
  {
    hide WalkedItem;
  }

  lemma {:induction false} FindItem<T>(items: seq<Json>, pointer: Text, top: Option<Text>, vis: Visitor<T>, x: T) returns (i: nat)
    requires x in WalkedItems(items, pointer, top, vis)
    ensures i < |items| && x in WalkedItem(items[i], i, pointer, top, vis)
  {
    hide WalkedItem;
    i := |items| - 1;
    ItemsUnfold(items, pointer, top, vis, x);
    if x !in WalkedItem(items[i], i, pointer, top, vis) {
      i := FindItem(items[..i], pointer, top, vis, x);
    }
  }

  lemma {:induction false} ItemIsWalked<T>(items: seq<Json>, i: nat, pointer: Text, top: Option<Text>, vis: Visitor<T>, x: T)
    requires i < |items| && x in WalkedItem(items[i], i, pointer, top, vis)
    ensures x in WalkedItems(items, pointer, top, vis)
  {
    hide WalkedItem;
    ItemsUnfold(items, pointer, top, vis, x);
    if i < |items| - 1 {
      ItemIsWalked(items[..|items| - 1], i, pointer, top, vis, x);
    }
  }

  lemma ViaNothing<T>(v: Json, pointer: Text, top: Option<Text>, vis: Visitor<T>, x: T)
    ensures PushedVia(v, pointer, top, vis, [], x) <==> PushedAt(v, pointer, top, vis, x)
  {
    assert pointer + [] == pointer;
  }

  /** One step down and then `path`. */
  lemma ViaStep<T>(v: Json, step: Step, pointer: Text, top: Option<Text>, vis: Visitor<T>, path: Path, x: T)
    requires Child(v, step).Some?
    requires match step case Key(k) => k != SD case Index(_) => !vis.terminal(Child(v, step).value)
    ensures PushedVia(v, pointer, top, vis, [step] + path, x)
       <==> PushedVia(Child(v, step).value, pointer + Token(step),
                      match step case Key(k) => Below(top, k) case Index(_) => top, vis, path, x)
  {
    hide Token, PushedAt, Child;
    var full := [step] + path;
    assert full[0] == step && full[1..] == path;
    assert pointer + Pointer(full) == pointer + Token(step) + Pointer(path);
    TopLevelStays(match step case Key(k) => Below(top, k) case Index(_) => top, path);
  }

  lemma TopLevelStays(top: Option<Text>, path: Path)
    ensures top.Some? ==> TopLevel(top, path) == top
  {
  }

  /** Whatever the walk pushes, it pushes at some node it reaches. */
  lemma {:induction false} WalkedIsVisited<T>(v: Json, pointer: Text, top: Option<Text>, vis: Visitor<T>, x: T) returns (path: Path)
    requires WellFormed(v) && x in Walked(v, pointer, top, vis)
    ensures PushedVia(v, pointer, top, vis, path, x)
    decreases v
  {
    path := [];
    hide PushedVia, Token;
    ViaNothing(v, pointer, top, vis, x);
    match v {
      case Obj(es) =>
        var i := FindEntry(es, pointer, top, vis, x);
        var e := es[i];
        if x !in vis.onKey(e.key, e.value, pointer) {
          LookupAt(es, i);
          var rest := WalkedIsVisited(e.value, pointer + Token(Key(e.key)), Below(top, e.key), vis, x);
          ViaStep(v, Key(e.key), pointer, top, vis, rest, x);
          path := [Key(e.key)] + rest;
        }
      case Arr(items) =>
        var i := FindItem(items, pointer, top, vis, x);
        if x !in vis.onItem(items[i], pointer + Token(Index(i)), top) {
          var rest := WalkedIsVisited(items[i], pointer + Token(Index(i)), top, vis, x);
          ViaStep(v, Index(i), pointer, top, vis, rest, x);
          path := [Index(i)] + rest;
        }
      case _ =>
    }
  }

  /** Every node the walk reaches is visited. */
  lemma {:induction false} VisitedIsWalked<T>(v: Json, pointer: Text, top: Option<Text>, vis: Visitor<T>, path: Path, x: T)
    requires WellFormed(v) && PushedVia(v, pointer, top, vis, path, x)
    ensures x in Walked(v, pointer, top, vis)
    decreases v
  {
    if path == [] {
      ViaNothing(v, pointer, top, vis, x);
      match v {
        case Obj(es) =>
          var i :| 0 <= i < |es| && x in vis.onKey(es[i].key, es[i].value, pointer);
          assert x in WalkedEntry(es[i], pointer, top, vis);
          EntryIsWalked(es, i, pointer, top, vis, x);
        case Arr(items) =>
          var i: nat :| i < |items| && x in vis.onItem(items[i], pointer + Token(Index(i)), top);
          assert x in WalkedItem(items[i], i, pointer, top, vis);
          ItemIsWalked(items, i, pointer, top, vis, x);
        case _ =>
      }
    } else {
      var step, rest := path[0], path[1..];
      assert path == [step] + rest;
      ViaStep(v, step, pointer, top, vis, rest, x);
      hide PushedVia, Token;
      match (v, step) {
        case (Obj(es), Key(k)) =>
          var i := LookupFinds(es, k);
          VisitedIsWalked(es[i].value, pointer + Token(step), Below(top, k), vis, rest, x);
          assert x in WalkedEntry(es[i], pointer, top, vis);
          EntryIsWalked(es, i, pointer, top, vis, x);
        case (Arr(items), Index(i)) =>
          VisitedIsWalked(items[i], pointer + Token(step), top, vis, rest, x);
          assert x in WalkedItem(items[i], i, pointer, top, vis);
          ItemIsWalked(items, i, pointer, top, vis, x);
        case _ =>
      }
    }
  }

  // ---------------------------------------------------------------------------------------------
  // Object properties
  // ---------------------------------------------------------------------------------------------

  function TrimSlashes(s: Text): Text {
    if s != [] && s[0] == SLASH then TrimSlashes(s[1..]) else s
  }

  /** `trim_start_matches`: what is left does not start with a slash, and only slashes are gone. */
  lemma {:induction false} SelectorExact(pointer: Text, selector: Text)
    ensures TrimSlashes(pointer) == selector
       <==> && |selector| <= |pointer| && selector == pointer[|pointer| - |selector|..]
            && (forall i :: 0 <= i < |pointer| - |selector| ==> pointer[i] == '/' as byte)
            && (selector != [] ==> selector[0] != '/' as byte)
  {
    if pointer != [] && pointer[0] == SLASH {
      var rest := pointer[1..];
      SelectorExact(rest, selector);
      if |selector| <= |rest| {
        assert rest[|rest| - |selector|..] == pointer[|pointer| - |selector|..];
        assert (forall i :: 0 <= i < |pointer| - |selector| ==> pointer[i] == '/' as byte)
          <==> forall i :: 0 <= i < |rest| - |selector| ==> rest[i] == '/' as byte by {
          if forall i :: 0 <= i < |rest| - |selector| ==> rest[i] == '/' as byte {
            forall i | 0 <= i < |pointer| - |selector| ensures pointer[i] == '/' as byte {
              if i > 0 { assert rest[i - 1] == pointer[i]; }
            }
          }
        }
      }
    }
  }

  function ObjectPathOf(objectPointer: Text, claim: Text): ObjectPropertyPath {
    var full := objectPointer + Token(Key(claim));
    ObjectPropertyPath(full, TrimSlashes(full))
  }

  /** The named disclosures among the digests of one `_sd` array. */
  function NamedDigests(digests: seq<Json>, objectPointer: Text, claimNames: map<Text, Text>): seq<ObjectPropertyPath> {
    if digests == [] then []
    else
      var d := digests[|digests| - 1];
      NamedDigests(digests[..|digests| - 1], objectPointer, claimNames)
      + if d.Str? && d.text in claimNames then [ObjectPathOf(objectPointer, claimNames[d.text])] else []
  }

  function ObjectVisitor(claimNames: map<Text, Text>): Visitor<ObjectPropertyPath> {
    Visitor(
      (key: Text, child: Json, objectPointer: Text) =>
        if key == SD && child.Arr? then NamedDigests(child.items, objectPointer, claimNames) else [],
      (item: Json, pointer: Text, top: Option<Text>) => [],
      (item: Json) => false)
  }

  function ObjectPropertyPaths(claims: Json, claimNames: map<Text, Text>): seq<ObjectPropertyPath> {
    Walked(claims, [], None, ObjectVisitor(claimNames))
  }

  method CollectObjectPropertyPaths(claims: Json, claimNames: map<Text, Text>) returns (out: seq<ObjectPropertyPath>)
    ensures out == ObjectPropertyPaths(claims, claimNames)
  {
    var c := new Collector<ObjectPropertyPath>();
    c.Walk(claims, [], None, ObjectVisitor(claimNames));
    out := c.out;
    assert out == [] + ObjectPropertyPaths(claims, claimNames);
  }

  /** The object at `path` lists `digest` in its `_sd` array, and no `_sd` member is on the way. */
  ghost predicate SdDigestAt(claims: Json, path: Path, digest: Text) {
    && Follow(claims, path).Some? && (forall s :: s in path ==> s != Key(Lit("_sd")))
    && var sd := Get(Follow(claims, path).value, Lit("_sd"));
       sd.Some? && sd.value.Arr? && Str(digest) in sd.value.items
  }

  lemma {:induction false} InNamedDigests(digests: seq<Json>, p: Text, claimNames: map<Text, Text>, o: ObjectPropertyPath)
    ensures o in NamedDigests(digests, p, claimNames)
       <==> exists d :: d in claimNames && Str(d) in digests && o == ObjectPathOf(p, claimNames[d])
  {
    hide ObjectPathOf;
    if digests == [] {
    } else {
      var n := |digests| - 1;
      InNamedDigests(digests[..n], p, claimNames, o);
      assert digests == digests[..n] + [digests[n]];
      if digests[n].Str? && digests[n].text in claimNames && o == ObjectPathOf(p, claimNames[digests[n].text]) {
        assert Str(digests[n].text) in digests;
      }
    }
  }

  lemma {:induction false} ClearWithoutTerminals(v: Json, path: Path, terminal: Json -> bool)
    requires Follow(v, path).Some? && forall j :: !terminal(j)
    ensures Clear(v, path, terminal) <==> forall s :: s in path ==> s != Key(SD)
    decreases |path|
  {
    hide Child;
    if path != [] {
      var first, rest, c := path[0], path[1..], Child(v, path[0]).value;
      ClearWithoutTerminals(c, rest, terminal);
      assert path == [first] + rest;
      assert !terminal(c);
      assert Clear(v, path, terminal) <==> first != Key(SD) && Clear(c, rest, terminal);
      if Clear(c, rest, terminal) && first != Key(SD) {
        forall s | s in path ensures s != Key(SD) {
          assert s == first || s in rest;
        }
      }
      assert first in path && forall s :: s in rest ==> s in path;
    }
  }

  lemma ObjectPushedAt(v: Json, p: Text, top: Option<Text>, claimNames: map<Text, Text>, o: ObjectPropertyPath)
    requires WellFormed(v)
    ensures PushedAt(v, p, top, ObjectVisitor(claimNames), o)
       <==> var sd := Get(v, SD);
            && sd.Some? && sd.value.Arr?
            && exists d :: d in claimNames && Str(d) in sd.value.items && o == ObjectPathOf(p, claimNames[d])
  {
    hide Token, ObjectPathOf, NamedDigests;
    if v.Obj? {
      var es := v.entries;
      if Lookup(es, SD).Some? {
        var i := LookupFinds(es, SD);
        if es[i].value.Arr? {
          InNamedDigests(es[i].value.items, p, claimNames, o);
        }
        forall j | 0 <= j < |es| && es[j].key == SD ensures j == i {
        }
      } else {
        forall j | 0 <= j < |es| ensures es[j].key != SD {
          LookupAt(es, j);
        }
      }
    }
  }

  /**
    The collected object properties are exactly the named digests of the reachable `_sd` arrays,
    each under the pointer of the object that holds it.
  */
  lemma ObjectPathsExact(claims: Json, claimNames: map<Text, Text>, o: ObjectPropertyPath)
    requires WellFormed(claims)
    ensures o in ObjectPropertyPaths(claims, claimNames)
       <==> exists path: Path, d: Text ::
              SdDigestAt(claims, path, d) && d in claimNames && o == ObjectPathOf(Pointer(path), claimNames[d])
  {
    var vis := ObjectVisitor(claimNames);
    hide ObjectPathOf, Walked, PushedAt, Clear, ObjectVisitor, Follow;
    if o in ObjectPropertyPaths(claims, claimNames) {
      var path := WalkedIsVisited(claims, [], None, vis, o);
      var d := ObjectVia(claims, claimNames, path, o);
      assert SdDigestAt(claims, path, d);
    }
    if path: Path, d: Text :| SdDigestAt(claims, path, d) && d in claimNames && o == ObjectPathOf(Pointer(path), claimNames[d]) {
      ObjectViaBack(claims, claimNames, path, d);
      VisitedIsWalked(claims, [], None, vis, path, o);
    }
  }

  lemma {:induction false} FollowWellFormed(v: Json, path: Path)
    requires WellFormed(v) && Follow(v, path).Some?
    ensures WellFormed(Follow(v, path).value)
    decreases |path|
  {
    if path != [] {
      if v.Obj? {
        var i := LookupFinds(v.entries, path[0].key);
      }
      FollowWellFormed(Child(v, path[0]).value, path[1..]);
    }
  }

  lemma ObjectVia(claims: Json, claimNames: map<Text, Text>, path: Path, o: ObjectPropertyPath) returns (d: Text)
    requires WellFormed(claims) && PushedVia(claims, [], None, ObjectVisitor(claimNames), path, o)
    ensures SdDigestAt(claims, path, d) && d in claimNames && o == ObjectPathOf(Pointer(path), claimNames[d])
  {
    var vis := ObjectVisitor(claimNames);
    assert forall j :: !vis.terminal(j);
    hide ObjectPathOf, PushedAt, Clear, ObjectVisitor, Follow;
    var node := Follow(claims, path).value;
    assert [] + Pointer(path) == Pointer(path);
    ClearWithoutTerminals(claims, path, vis.terminal);
    FollowWellFormed(claims, path);
    ObjectPushedAt(node, Pointer(path), TopLevel(None, path), claimNames, o);
    d :| d in claimNames && Str(d) in Get(node, SD).value.items && o == ObjectPathOf(Pointer(path), claimNames[d]);
  }

  lemma ObjectViaBack(claims: Json, claimNames: map<Text, Text>, path: Path, d: Text)
    requires WellFormed(claims) && SdDigestAt(claims, path, d) && d in claimNames
    ensures PushedVia(claims, [], None, ObjectVisitor(claimNames), path, ObjectPathOf(Pointer(path), claimNames[d]))
  {
    var vis := ObjectVisitor(claimNames);
    assert forall j :: !vis.terminal(j);
    hide ObjectPathOf, PushedAt, Clear, ObjectVisitor, Follow;
    assert [] + Pointer(path) == Pointer(path);
    ClearWithoutTerminals(claims, path, vis.terminal);
    FollowWellFormed(claims, path);
    ObjectPushedAt(Follow(claims, path).value, Pointer(path), TopLevel(None, path), claimNames,
                   ObjectPathOf(Pointer(path), claimNames[d]));
  }

  // ---------------------------------------------------------------------------------------------
  // Array elements
  // ---------------------------------------------------------------------------------------------

  /** `{ "...": digest }` with a digest among the targets. */
  predicate Redaction(item: Json, targets: set<Text>) {
    var dots := Get(item, DOTS);
    dots.Some? && dots.value.Str? && dots.value.text in targets
  }

  lemma RedactionExact(item: Json, targets: set<Text>)
    ensures Redaction(item, targets) <==> exists digest :: digest in targets && Get(item, Lit("...")) == Some(Str(digest))
  {
    hide Get;
  }

  function ArrayVisitor(targets: set<Text>): Visitor<ArrayElementPath> {
    Visitor(
      (key: Text, child: Json, objectPointer: Text) => [],
      (item: Json, pointer: Text, top: Option<Text>) =>
        if Redaction(item, targets) && top.Some? then [ArrayElementPath(pointer, top.value)] else [],
      (item: Json) => Redaction(item, targets))
  }

  function ArrayElementPaths(claims: Json, targets: set<Text>): seq<ArrayElementPath> {
    Walked(claims, [], None, ArrayVisitor(targets))
  }

  method CollectArrayElementPaths(claims: Json, targets: set<Text>) returns (out: seq<ArrayElementPath>)
    ensures out == ArrayElementPaths(claims, targets)
  {
    var c := new Collector<ArrayElementPath>();
    c.Walk(claims, [], None, ArrayVisitor(targets));
    out := c.out;
    assert out == [] + ArrayElementPaths(claims, targets);
  }

  /** The array element at `path` is a redaction, and none is above it. */
  ghost predicate RedactionAt(claims: Json, path: Path, targets: set<Text>) {
    && path != [] && path[|path| - 1].Index?
    && Follow(claims, path).Some? && Redaction(Follow(claims, path).value, targets)
    && Follow(claims, path[..|path| - 1]).Some?
    && Clear(claims, path[..|path| - 1], j => Redaction(j, targets))
  }

  lemma {:induction false} FollowSnoc(v: Json, path: Path, step: Step)
    ensures Follow(v, path + [step])
         == match Follow(v, path) { case Some(c) => Child(c, step) case None => None }
    decreases |path|
  {
    hide Child;
    var full := path + [step];
    if path == [] {
      assert full[1..] == [];
    } else {
      assert full[0] == path[0] && full[1..] == path[1..] + [step];
      if Child(v, path[0]).Some? { FollowSnoc(Child(v, path[0]).value, path[1..], step); }
    }
  }

  /**
    The collected array elements are exactly the reachable redactions below some object key, each
    under its own pointer and its top-level claim.
  */
  lemma ArrayPathsExact(claims: Json, targets: set<Text>, o: ArrayElementPath)
    requires WellFormed(claims)
    ensures o in ArrayElementPaths(claims, targets)
       <==> exists path: Path ::
              RedactionAt(claims, path, targets) && o.pointer == Pointer(path) && TopLevel(None, path) == Some(o.topLevelClaim)
  {
    var vis := ArrayVisitor(targets);
    hide Walked, PushedAt, Clear, ArrayVisitor, Follow;
    if o in ArrayElementPaths(claims, targets) {
      var parent := WalkedIsVisited(claims, [], None, vis, o);
      var i := ArrayVia(claims, targets, parent, o);
    }
    if path: Path :| RedactionAt(claims, path, targets) && o.pointer == Pointer(path) && TopLevel(None, path) == Some(o.topLevelClaim) {
      ArrayViaBack(claims, targets, path, o);
      VisitedIsWalked(claims, [], None, vis, path[..|path| - 1], o);
    }
  }

  lemma {:induction false} TopLevelSnoc(top: Option<Text>, path: Path, i: nat)
    ensures TopLevel(top, path + [Index(i)]) == TopLevel(top, path)
    decreases |path|
  {
    var full := path + [Index(i)];
    if path == [] || top.Some? {
      assert path == [] ==> full[1..] == [];
    } else {
      assert full[0] == path[0] && full[1..] == path[1..] + [Index(i)];
      TopLevelSnoc(match path[0] case Key(k) => Below(top, k) case Index(_) => top, path[1..], i);
    }
  }

  lemma {:induction false} ClearSame(v: Json, path: Path, f: Json -> bool, g: Json -> bool)
    requires Follow(v, path).Some? && forall j :: f(j) == g(j)
    ensures Clear(v, path, f) == Clear(v, path, g)
    decreases |path|
  {
    hide Child;
    if path != [] {
      ClearSame(Child(v, path[0]).value, path[1..], f, g);
    }
  }

  lemma ArrayVia(claims: Json, targets: set<Text>, parent: Path, o: ArrayElementPath) returns (i: nat)
    requires WellFormed(claims) && PushedVia(claims, [], None, ArrayVisitor(targets), parent, o)
    ensures var path := parent + [Index(i)];
            RedactionAt(claims, path, targets) && o.pointer == Pointer(path) && TopLevel(None, path) == Some(o.topLevelClaim)
  {
    hide Redaction, Clear, Follow, Token;
    var vis := ArrayVisitor(targets);
    var items := Follow(claims, parent).value.items;
    assert [] + Pointer(parent) == Pointer(parent);
    i :| i < |items| && o in vis.onItem(items[i], Pointer(parent) + Token(Index(i)), TopLevel(None, parent));
    FollowSnoc(claims, parent, Index(i));
    PointerSnoc(parent, Index(i));
    TopLevelSnoc(None, parent, i);
    assert (parent + [Index(i)])[..|parent|] == parent;
    ClearSame(claims, parent, vis.terminal, j => Redaction(j, targets));
  }

  lemma ArrayViaBack(claims: Json, targets: set<Text>, path: Path, o: ArrayElementPath)
    requires WellFormed(claims) && RedactionAt(claims, path, targets)
    requires o.pointer == Pointer(path) && TopLevel(None, path) == Some(o.topLevelClaim)
    ensures PushedVia(claims, [], None, ArrayVisitor(targets), path[..|path| - 1], o)
  {
    hide Redaction, Clear, Follow, Token;
    var vis := ArrayVisitor(targets);
    var parent, step := path[..|path| - 1], path[|path| - 1];
    assert path == parent + [step];
    FollowSnoc(claims, parent, step);
    PointerSnoc(parent, step);
    TopLevelSnoc(None, parent, step.index);
    ClearSame(claims, parent, vis.terminal, j => Redaction(j, targets));
    var node := Follow(claims, parent).value;
    assert [] + Pointer(parent) == Pointer(parent);
    assert o in vis.onItem(node.items[step.index], Pointer(parent) + Token(Index(step.index)), TopLevel(None, parent));
  }

  // ---------------------------------------------------------------------------------------------
  // Pointers and nodes
  // ---------------------------------------------------------------------------------------------

  /** The pointer above a collected property resolves to the object whose `_sd` lists its digest. */
  lemma ParentPointerResolves(claims: Json, claimNames: map<Text, Text>, o: ObjectPropertyPath)
      returns (parent: Text, digest: Text)
    requires WellFormed(claims) && o in ObjectPropertyPaths(claims, claimNames)
    ensures digest in claimNames && o.pointer == parent + Token(Key(claimNames[digest]))
    ensures var node := Resolve(claims, parent);
            && node.Some? && Get(node.value, SD).Some? && Get(node.value, SD).value.Arr?
            && Str(digest) in Get(node.value, SD).value.items
  {
    ObjectPathsExact(claims, claimNames, o);
    var path: Path, d :| SdDigestAt(claims, path, d) && d in claimNames && o == ObjectPathOf(Pointer(path), claimNames[d]);
    parent, digest := Pointer(path), d;
    PointerResolves(claims, path);
  }

  /** A collected element's pointer resolves to a redaction, and names one element only. */
  lemma ElementPointerResolves(claims: Json, targets: set<Text>, o: ArrayElementPath)
    requires WellFormed(claims) && o in ArrayElementPaths(claims, targets)
    ensures Resolve(claims, o.pointer).Some? && Redaction(Resolve(claims, o.pointer).value, targets)
    ensures forall p: Path, q: Path | Follow(claims, p).Some? && Follow(claims, q).Some? && Pointer(p) == o.pointer == Pointer(q) ::
              p == q
  {
    ArrayPathsExact(claims, targets, o);
    var path: Path :| RedactionAt(claims, path, targets) && o.pointer == Pointer(path);
    PointerResolves(claims, path);
    forall p: Path, q: Path | Follow(claims, p).Some? && Follow(claims, q).Some? && Pointer(p) == o.pointer == Pointer(q)
      ensures p == q
    {
      PointerInjective(claims, p, q);
    }
  }

  // ---------------------------------------------------------------------------------------------
  // What is concealed
  // ---------------------------------------------------------------------------------------------

  /** A name selects an object property by its path, or an array by its top-level claim. */
  predicate Selects(objects: seq<ObjectPropertyPath>, elements: seq<ArrayElementPath>, name: Text) {
    || (exists i :: 0 <= i < |objects| && objects[i].selector == name)
    || (exists i :: 0 <= i < |elements| && elements[i].topLevelClaim == name)
  }

  /** `pointer` belongs to a disclosure that is not selected. */
  predicate Unselected(objects: seq<ObjectPropertyPath>, elements: seq<ArrayElementPath>, disclose: set<Text>, pointer: Text) {
    || (exists i :: 0 <= i < |objects| && objects[i].selector !in disclose && objects[i].pointer == pointer)
    || (exists i :: 0 <= i < |elements| && elements[i].topLevelClaim !in disclose && elements[i].pointer == pointer)
  }

  /** The pointers handed to the presentation builder's `conceal`, or `None` when a requested name selects nothing. */
  method Conceal(claims: Json, claimNames: map<Text, Text>, targets: set<Text>, disclose: set<Text>) returns (r: Option<seq<Text>>)
    ensures var objects, elements := ObjectPropertyPaths(claims, claimNames), ArrayElementPaths(claims, targets);
            && (r.Some? <==> forall name :: name in disclose ==> Selects(objects, elements, name))
            && (r.Some? ==> forall p :: p in r.value <==> Unselected(objects, elements, disclose, p))
  {
    hide ObjectPropertyPaths, ArrayElementPaths;
    var objects := CollectObjectPropertyPaths(claims, claimNames);
    var elements := CollectArrayElementPaths(claims, targets);
    if !(forall name :: name in disclose ==> Selects(objects, elements, name)) { return None; }
    var concealed: seq<Text> := [];
    for i := 0 to |objects|
      invariant forall p :: p in concealed <==> exists j :: 0 <= j < i && objects[j].selector !in disclose && objects[j].pointer == p
    {
      if objects[i].selector !in disclose { concealed := concealed + [objects[i].pointer]; }
    }
    ghost var named := concealed;
    for i := 0 to |elements|
      invariant forall p :: p in concealed <==>
                  p in named || exists j :: 0 <= j < i && elements[j].topLevelClaim !in disclose && elements[j].pointer == p
    {
      if elements[i].topLevelClaim !in disclose { concealed := concealed + [elements[i].pointer]; }
    }
    return Some(concealed);
  }

  /**
    Exactly the disclosures that were not selected are concealed: every named digest below a path
    that is not requested, and every redacted element below a top-level claim that is not requested.
  */
  lemma ConcealedExact(claims: Json, claimNames: map<Text, Text>, targets: set<Text>, disclose: set<Text>, p: Text)
    requires WellFormed(claims)
    ensures Unselected(ObjectPropertyPaths(claims, claimNames), ArrayElementPaths(claims, targets), disclose, p)
       <==> || (exists path: Path, d: Text ::
                  && SdDigestAt(claims, path, d) && d in claimNames
                  && p == Pointer(path) + Token(Key(claimNames[d])) && TrimSlashes(p) !in disclose)
            || (exists path: Path, top: Text ::
                  RedactionAt(claims, path, targets) && p == Pointer(path) && TopLevel(None, path) == Some(top) && top !in disclose)
  {
    hide ObjectPropertyPaths, ArrayElementPaths, SdDigestAt, RedactionAt, Token, TrimSlashes, TopLevel;
    var objects, elements := ObjectPropertyPaths(claims, claimNames), ArrayElementPaths(claims, targets);
    if i :| 0 <= i < |objects| && objects[i].selector !in disclose && objects[i].pointer == p {
      ObjectPathsExact(claims, claimNames, objects[i]);
    }
    if i :| 0 <= i < |elements| && elements[i].topLevelClaim !in disclose && elements[i].pointer == p {
      ArrayPathsExact(claims, targets, elements[i]);
    }
    if path: Path, d: Text :|
         SdDigestAt(claims, path, d) && d in claimNames
         && p == Pointer(path) + Token(Key(claimNames[d])) && TrimSlashes(p) !in disclose
    {
      var o := ObjectPathOf(Pointer(path), claimNames[d]);
      ObjectPathsExact(claims, claimNames, o);
      assert o in objects;
    }
    if path: Path, top: Text :|
         RedactionAt(claims, path, targets) && p == Pointer(path) && TopLevel(None, path) == Some(top) && top !in disclose
    {
      var o := ArrayElementPath(p, top);
      ArrayPathsExact(claims, targets, o);
      assert o in elements;
    }
  }
}
