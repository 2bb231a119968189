/**
  The rustdoc converter's view of a crate: which modules are reachable from the root, which items
  they own, and which items a module page shows.
*/
module RustdocCrate {
  import opened Prelude

  type Id = Text

  /** A module lists its members; a re-export names its target. */
  datatype Inner = Module(items: seq<Id>) | Use(target: Id) | Other

  datatype Item = Item(id: Id, inner: Inner)

  type Index = map<Id, Item>

  predicate IsModule(index: Index, m: Id) {
    m in index && index[m].inner.Module?
  }

  /** A member, or what it re-exports: one hop only. */
  function Exposed(index: Index, child: Id): Option<Item> {
    if child !in index then None
    else if index[child].inner.Use? then
      if index[child].inner.target in index then Some(index[index[child].inner.target]) else None
    else Some(index[child])
  }

  /** One step of the graph: `m` has a member that is, or re-exports, the module `n`. */
  predicate Edge(index: Index, m: Id, n: Id) {
    && IsModule(index, m)
    && exists k :: 0 <= k < |index[m].inner.items| && Leads(index, index[m].inner.items[k], n)
  }

  predicate Leads(index: Index, child: Id, n: Id) {
    var e := Exposed(index, child);
    e.Some? && e.value.inner.Module? && e.value.id == n
  }

  // ---------------------------------------------------------------------------------------------
  // Reachable modules
  // ---------------------------------------------------------------------------------------------

  /** A chain of modules from the root, each exposing the next. */
  predicate IsChain(index: Index, root: Id, chain: seq<Id>) {
    && chain != [] && chain[0] == root
    && (forall i :: 0 <= i < |chain| ==> IsModule(index, chain[i]))
    && (forall i :: 0 <= i < |chain| - 1 ==> Edge(index, chain[i], chain[i + 1]))
  }

  ghost predicate Reachable(index: Index, root: Id, m: Id) {
    exists chain :: IsChain(index, root, chain) && chain[|chain| - 1] == m
  }

  /** On the queue: the root, or exposed by a module already found. */
  ghost predicate Pending(index: Index, root: Id, found: set<Id>, q: Id) {
    q == root || exists m :: m in found && Edge(index, m, q)
  }

  /** Every edge out of a found module has been followed or queued. */
  ghost predicate Closed(index: Index, root: Id, found: set<Id>, queue: seq<Id>) {
    && (IsModule(index, root) ==> root in found || root in queue)
    && forall m, n :: m in found && Edge(index, m, n) && IsModule(index, n) ==> n in found || n in queue
  }

  /** The worklist: a stack of module ids. */
  method ReachableModules(index: Index, root: Id) returns (found: set<Id>)
    ensures forall m :: m in found <==> Reachable(index, root, m)
    ensures forall m :: m in found ==> IsModule(index, m)
  {
    hide Reachable, Edge, Exposed;
    found := {};
    var queue: seq<Id> := [root];
    while queue != []
      invariant forall m :: m in found ==> IsModule(index, m) && Reachable(index, root, m)
      invariant forall q :: q in queue ==> Pending(index, root, found, q)
      invariant Closed(index, root, found, queue)
      decreases index.Keys - found, |queue|
    {
      var mid := queue[|queue| - 1];
      ghost var before := found;
      assert queue == queue[..|queue| - 1] + [mid];
      queue := queue[..|queue| - 1];
      ghost var popped := queue;
      assert forall q :: q in popped ==> Pending(index, root, before, q);
      if mid in found || !IsModule(index, mid) { continue; }
      found := found + {mid};
      PendingIsReachable(index, root, before, mid);
      var items := index[mid].inner.items;
      for k := 0 to |items|
        invariant popped <= queue
        invariant forall q :: q in queue ==> q in popped || Edge(index, mid, q)
        invariant forall j, n :: 0 <= j < k && Leads(index, items[j], n) ==> n in queue
      {
        var child := Exposed(index, items[k]);
        if child.Some? && child.value.inner.Module? {
          assert Leads(index, items[k], child.value.id);
          EdgeBy(index, mid, k, child.value.id);
          queue := queue + [child.value.id];
        }
      }
      forall n | Edge(index, mid, n) ensures n in queue {
        EdgeLeads(index, mid, n);
      }
      forall q | q in queue ensures Pending(index, root, found, q) {
        if q in popped && q != root {
          var m :| m in before && Edge(index, m, q);
          assert m in found;
        } else if q != root {
          assert mid in found && Edge(index, mid, q);
        }
      }
    }
    ClosedIsComplete(index, root, found);
  }

  lemma EdgeBy(index: Index, m: Id, k: nat, n: Id)
    requires IsModule(index, m) && k < |index[m].inner.items| && Leads(index, index[m].inner.items[k], n)
    ensures Edge(index, m, n)
  {
  }

  lemma EdgeLeads(index: Index, m: Id, n: Id)
    requires Edge(index, m, n)
    ensures IsModule(index, m) && exists k :: 0 <= k < |index[m].inner.items| && Leads(index, index[m].inner.items[k], n)
  {
  }

  /** What is pending and a module is reachable. */
  lemma PendingIsReachable(index: Index, root: Id, found: set<Id>, q: Id)
    requires Pending(index, root, found, q) && IsModule(index, q)
    requires forall m :: m in found ==> Reachable(index, root, m)
    ensures Reachable(index, root, q)
  {
    hide Edge;
    if q == root {
      assert IsChain(index, root, [root]);
    } else {
      var m :| m in found && Edge(index, m, q);
      var chain :| IsChain(index, root, chain) && chain[|chain| - 1] == m;
      var longer := chain + [q];
      assert IsChain(index, root, longer);
    }
  }

  /** A closed set with an empty queue holds every chain. */
  lemma ClosedIsComplete(index: Index, root: Id, found: set<Id>)
    requires Closed(index, root, found, [])
    ensures forall m :: Reachable(index, root, m) ==> m in found
  {
    forall m | Reachable(index, root, m) ensures m in found {
      var chain :| IsChain(index, root, chain) && chain[|chain| - 1] == m;
      ChainIsFound(index, root, found, chain);
    }
  }

  lemma {:induction false} ChainIsFound(index: Index, root: Id, found: set<Id>, chain: seq<Id>)
    requires Closed(index, root, found, []) && IsChain(index, root, chain)
    ensures chain[|chain| - 1] in found
  {
    hide Edge;
    if |chain| > 1 {
      ChainIsFound(index, root, found, chain[..|chain| - 1]);
      assert Edge(index, chain[|chain| - 2], chain[|chain| - 1]);
    }
  }

  // ---------------------------------------------------------------------------------------------
  // Owned items
  // ---------------------------------------------------------------------------------------------

  /** A member of the module that is not a re-export. */
  predicate IsMember(index: Index, m: Id, x: Id) {
    IsModule(index, m) && x in index[m].inner.items && x in index && !index[x].inner.Use?
  }

  /** The members among a module's listed ids. */
  function MembersAmong(index: Index, ids: seq<Id>): set<Id> {
    set x | x in ids && x in index && !index[x].inner.Use?
  }

  /** `x` is a member of one of the modules `ms`. */
  ghost predicate OwnedBy(index: Index, ms: set<Id>, x: Id) {
    exists m :: m in ms && IsMember(index, m, x)
  }

  ghost predicate OwnedExactly(index: Index, ms: set<Id>, owned: set<Id>) {
    forall x :: x in owned <==> OwnedBy(index, ms, x)
  }

  lemma MembersSnoc(index: Index, ids: seq<Id>, k: nat)
    requires k < |ids|
    ensures MembersAmong(index, ids[..k + 1])
         == MembersAmong(index, ids[..k]) + if ids[k] in index && !index[ids[k]].inner.Use? then {ids[k]} else {}
  {
    assert ids[..k + 1] == ids[..k] + [ids[k]];
  }

  lemma NothingOwned(index: Index)
    ensures OwnedExactly(index, {}, {})
  {
  }

  lemma OwnedGrows(index: Index, ms: set<Id>, owned: set<Id>, m: Id)
    requires OwnedExactly(index, ms, owned) && IsModule(index, m)
    ensures OwnedExactly(index, ms + {m}, owned + MembersAmong(index, index[m].inner.items))
  {
    forall x ensures x in owned + MembersAmong(index, index[m].inner.items) <==> OwnedBy(index, ms + {m}, x) {
      assert x in MembersAmong(index, index[m].inner.items) <==> IsMember(index, m, x);
      assert OwnedBy(index, ms, x) || IsMember(index, m, x) ==> OwnedBy(index, ms + {m}, x) by {
        if IsMember(index, m, x) { assert m in ms + {m}; }
        if n :| n in ms && IsMember(index, n, x) { assert n in ms + {m}; }
      }
    }
  }

  lemma NoMembers(index: Index, ids: seq<Id>)
    ensures MembersAmong(index, ids[..0]) == {}
  {
  }

  lemma OwnedIsValid(index: Index, root: Id, reachable: set<Id>, owned: set<Id>)
    requires OwnedExactly(index, reachable, owned) && forall m :: m in reachable <==> Reachable(index, root, m)
    ensures forall x :: x in owned <==> exists m :: Reachable(index, root, m) && IsMember(index, m, x)
  {
    hide Reachable;
    forall x ensures x in owned <==> exists m :: Reachable(index, root, m) && IsMember(index, m, x) {
      assert x in owned <==> OwnedBy(index, reachable, x);
      if m :| Reachable(index, root, m) && IsMember(index, m, x) { assert m in reachable; }
    }
  }

  class Crate {
    const index: Index
    const root: Id
    var moduleOwned: set<Id>

    ghost predicate Valid()
      reads this
    {
      forall x :: x in moduleOwned <==> exists m :: Reachable(index, root, m) && IsMember(index, m, x)
    }

    /** `module_owned` is the set of the non-re-export members of the reachable modules. */
    constructor (index: Index, root: Id)
      ensures this.index == index && this.root == root && Valid()
    {
      this.index := index;
      this.root := root;
      moduleOwned := {};
      new;
      var reachable := ReachableModules(index, root);
      var rest := reachable;
      ghost var done: set<Id> := {};
      NothingOwned(index);
      while rest != {}
        invariant rest <= reachable && done == reachable - rest
        invariant OwnedExactly(index, done, moduleOwned)
        decreases rest
      {
        hide OwnedExactly, MembersAmong;
        var mid :| mid in rest;
        ghost var owned := moduleOwned;
        var items := index[mid].inner.items;
        NoMembers(index, items);
        for k := 0 to |items|
          invariant moduleOwned == owned + MembersAmong(index, items[..k])
        {
          MembersSnoc(index, items, k);
          if items[k] in index && !index[items[k]].inner.Use? {
            moduleOwned := moduleOwned + {items[k]};
          }
        }
        assert items[..|items|] == items;
        OwnedGrows(index, done, owned, mid);
        rest := rest - {mid};
        done := done + {mid};
      }
      assert done == reachable;
      OwnedIsValid(index, root, reachable, moduleOwned);
    }

    /** `_collect_module_items`: what the page of module `m` shows. */
    method CollectModuleItems(m: Id) returns (resolved: seq<Item>)
      requires IsModule(index, m)
      ensures resolved == Shown(index, moduleOwned, index[m].inner.items)
    {
      resolved := [];
      var seen: set<Id> := {};
      var items := index[m].inner.items;
      assert items[..0] == [];
      for k := 0 to |items|
        invariant resolved == Shown(index, moduleOwned, items[..k])
        invariant seen == Ids(resolved)
      {
        hide Ids, Shown, Pick;
        var childId := items[k];
        ShownStep(index, moduleOwned, items, k);
        if childId !in index { PickNothing(index, moduleOwned, resolved, childId); continue; }
        var child := index[childId];
        if child.inner.Use? {
          if child.inner.target in index {
            var target := index[child.inner.target];
            if target.id !in moduleOwned && target.id !in seen {
              IdsSnoc(resolved, target);
              seen := seen + {target.id};
              PickTarget(index, moduleOwned, resolved, childId);
              resolved := resolved + [target];
            } else {
              PickNothing(index, moduleOwned, resolved, childId);
            }
          } else {
            PickNothing(index, moduleOwned, resolved, childId);
          }
          continue;
        }
        if child.id !in seen {
          IdsSnoc(resolved, child);
          seen := seen + {child.id};
          PickMember(index, moduleOwned, resolved, childId);
          resolved := resolved + [child];
        } else {
          PickNothing(index, moduleOwned, resolved, childId);
        }
      }
      assert items[..|items|] == items;
    }
  }

  // ---------------------------------------------------------------------------------------------
  // Module pages
  // ---------------------------------------------------------------------------------------------

  function Ids(items: seq<Item>): (ids: set<Id>) {
    set i | i in items :: i.id
  }

  /** What one listed member adds to a page: a re-export only when its target has no home of its own. */
  function Pick(index: Index, owned: set<Id>, shown: seq<Item>, child: Id): Option<Item> {
    match Exposed(index, child)
    case None => None
    case Some(item) =>
      if item.id in Ids(shown) || (index[child].inner.Use? && item.id in owned) then None else Some(item)
  }

  function Shown(index: Index, owned: set<Id>, items: seq<Id>): seq<Item> {
    if items == [] then []
    else
      var before := Shown(index, owned, items[..|items| - 1]);
      match Pick(index, owned, before, items[|items| - 1])
      case Some(item) => before + [item]
      case None => before
  }

  lemma ShownStep(index: Index, owned: set<Id>, items: seq<Id>, k: nat)
    requires k < |items|
    ensures Shown(index, owned, items[..k + 1])
         == (var before := Shown(index, owned, items[..k]);
             match Pick(index, owned, before, items[k]) case Some(item) => before + [item] case None => before)
  {
    assert items[..k + 1][..k] == items[..k];
  }

  lemma IdsSnoc(shown: seq<Item>, item: Item)
    ensures Ids(shown + [item]) == Ids(shown) + {item.id}
  {
    var more := shown + [item];
    forall x | x in Ids(more) ensures x in Ids(shown) + {item.id} {
      var i :| i in more && i.id == x;
    }
    forall x | x in Ids(shown) + {item.id} ensures x in Ids(more) {
      if x == item.id {
        assert item in more;
      } else {
        var i :| i in shown && i.id == x;
        assert i in more;
      }
    }
  }

  lemma PickNothing(index: Index, owned: set<Id>, shown: seq<Item>, child: Id)
    requires Exposed(index, child).Some? ==>
               var id := Exposed(index, child).value.id;
               id in Ids(shown) || (index[child].inner.Use? && id in owned)
    ensures Pick(index, owned, shown, child) == None
  {
  }

  lemma PickTarget(index: Index, owned: set<Id>, shown: seq<Item>, child: Id)
    requires child in index && index[child].inner.Use? && index[child].inner.target in index
    requires var t := index[index[child].inner.target]; t.id !in owned && t.id !in Ids(shown)
    ensures Pick(index, owned, shown, child) == Some(index[index[child].inner.target])
  {
  }

  lemma PickMember(index: Index, owned: set<Id>, shown: seq<Item>, child: Id)
    requires child in index && !index[child].inner.Use? && index[child].id !in Ids(shown)
    ensures Pick(index, owned, shown, child) == Some(index[child])
  {
  }

  lemma PickIsNew(index: Index, owned: set<Id>, shown: seq<Item>, child: Id)
    ensures Pick(index, owned, shown, child).Some? ==> Pick(index, owned, shown, child).value.id !in Ids(shown)
  {
  }

  lemma IdIn(shown: seq<Item>, i: nat)
    requires i < |shown|
    ensures shown[i].id in Ids(shown)
  {
    assert shown[i] in shown;
  }

  /** No page shows an item twice. */
  lemma {:induction false} ShownOnce(index: Index, owned: set<Id>, items: seq<Id>, i: nat, j: nat)
    requires i < j < |Shown(index, owned, items)|
    ensures Shown(index, owned, items)[i].id != Shown(index, owned, items)[j].id
  {
    hide Ids, Pick;
    var before := Shown(index, owned, items[..|items| - 1]);
    PickIsNew(index, owned, before, items[|items| - 1]);
    if j < |before| {
      ShownOnce(index, owned, items[..|items| - 1], i, j);
    } else {
      IdIn(before, i);
    }
  }

  /** Every listed member that exposes an item is on the page, unless it re-exports an owned one. */
  lemma {:induction false} ShownComplete(index: Index, owned: set<Id>, items: seq<Id>, k: nat)
    requires k < |items| && Exposed(index, items[k]).Some?
    requires index[items[k]].inner.Use? ==> Exposed(index, items[k]).value.id !in owned
    ensures Exposed(index, items[k]).value.id in Ids(Shown(index, owned, items))
    decreases |items|
  {
    var n := |items| - 1;
    var before := Shown(index, owned, items[..n]);
    if k < n {
      ShownComplete(index, owned, items[..n], k);
    }
    if Pick(index, owned, before, items[n]).Some? {
      IdsSnoc(before, Pick(index, owned, before, items[n]).value);
    }
  }

  /** The ids of the index are the ids of its items. */
  predicate Consistent(index: Index) {
    forall x :: x in index ==> index[x].id == x
  }

  /**
    Nothing exposed is dropped: whatever a reachable module has as a member or re-exports is on the
    page of some reachable module.
  */
  lemma NothingDropped(index: Index, root: Id, owned: set<Id>, m: Id, child: Id) returns (home: Id)
    requires Consistent(index)
    requires forall x :: x in owned <==> exists m :: Reachable(index, root, m) && IsMember(index, m, x)
    requires Reachable(index, root, m) && IsModule(index, m) && child in index[m].inner.items && Exposed(index, child).Some?
    ensures Reachable(index, root, home) && IsModule(index, home)
    ensures Exposed(index, child).value.id in Ids(Shown(index, owned, index[home].inner.items))
  {
    hide Reachable, Shown, Ids;
    var item := Exposed(index, child).value;
    if index[child].inner.Use? && item.id in owned {
      home :| Reachable(index, root, home) && IsMember(index, home, item.id);
      var k :| 0 <= k < |index[home].inner.items| && index[home].inner.items[k] == item.id;
      ShownComplete(index, owned, index[home].inner.items, k);
    } else {
      home := m;
      var k :| 0 <= k < |index[m].inner.items| && index[m].inner.items[k] == child;
      ShownComplete(index, owned, index[m].inner.items, k);
    }
  }
}
