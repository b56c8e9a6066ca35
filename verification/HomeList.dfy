/** The list on the home page: snaps being installed, then the installed ones, each shown once. */
module HomeList {
  import opened SnapTracking

  datatype Item = Item(id: string, status: Status)

  predicate HasId(items: seq<Item>, id: string) {
    exists i :: 0 <= i < |items| && items[i].id == id
  }

  /** A collection ignores an added item whose id is present already. */
  function Added(models: seq<Item>, items: seq<Item>): seq<Item> {
    if items == [] then models
    else
      var before := Added(models, items[..|items| - 1]);
      var item := items[|items| - 1];
      if HasId(before, item.id) then before else before + [item]
  }

  function BeingInstalled(items: seq<Item>): seq<Item> {
    if items == [] then []
    else
      var last := items[|items| - 1];
      BeingInstalled(items[..|items| - 1]) + if last.status.Installing? then [last] else []
  }

  class Collection {
    var models: seq<Item>

    constructor (items: seq<Item>)
      ensures models == Added([], items)
    {
      models := [];
      new;
      Add(items);
    }

    method Add(items: seq<Item>)
      modifies this
      ensures models == Added(old(models), items)
    {
      for i := 0 to |items|
        invariant models == Added(old(models), items[..i])
      {
        assert items[..i + 1][..i] == items[..i];
        if !HasId(models, items[i].id) {
          models := models + [items[i]];
        }
      }
      assert items[..|items|] == items;
    }

    method FilterInstalling() returns (items: seq<Item>)
      ensures items == BeingInstalled(models)
    {
      items := [];
      for i := 0 to |models|
        invariant items == BeingInstalled(models[..i])
      {
        assert models[..i + 1][..i] == models[..i];
        if models[i].status == Installing {
          items := items + [models[i]];
        }
      }
      assert models[..|models|] == models;
    }
  }

  /** `index`, once both lists have been fetched. */
  method Index(tracked: Collection, installed: Collection) returns (shown: Collection)
    requires tracked != installed
    modifies installed
    ensures fresh(shown)
    ensures shown.models == Shown(old(tracked.models), old(installed.models))
  {
    var items := tracked.FilterInstalling();
    var trackedSnapList := new Collection(items);
    installed.Add(trackedSnapList.models);
    shown := new Collection(trackedSnapList.models + installed.models);
  }

  function Shown(tracked: seq<Item>, installed: seq<Item>): seq<Item> {
    var first := Added([], BeingInstalled(tracked));
    Added([], first + Added(installed, first))
  }

  // ---------------------------------------------------------------- the list in words

  /** A collection never holds an id twice. */
  ghost predicate DistinctIds(items: seq<Item>) {
    forall i, j :: 0 <= i < j < |items| ==> items[i].id != items[j].id
  }

  /** The items whose ids are not among `others`, in order. */
  function Without(items: seq<Item>, others: seq<Item>): seq<Item> {
    if items == [] then []
    else
      var last := items[|items| - 1];
      Without(items[..|items| - 1], others) + if HasId(others, last.id) then [] else [last]
  }

  lemma AppendIds(a: seq<Item>, b: seq<Item>, id: string)
    ensures HasId(a + b, id) <==> HasId(a, id) || HasId(b, id)
  {
    if i :| 0 <= i < |a| && a[i].id == id { assert (a + b)[i].id == id; }
    if i :| 0 <= i < |b| && b[i].id == id { assert (a + b)[|a| + i].id == id; }
  }

  lemma {:induction false} WithoutIds(items: seq<Item>, others: seq<Item>, id: string)
    ensures HasId(Without(items, others), id) <==> HasId(items, id) && !HasId(others, id)
  {
    if items != [] {
      var init, last := items[..|items| - 1], items[|items| - 1];
      WithoutIds(init, others, id);
      assert items == init + [last] && [last][0] == last;
      AppendIds(init, [last], id);
      AppendIds(Without(init, others), if HasId(others, last.id) then [] else [last], id);
      assert HasId([last], id) <==> last.id == id;
    }
  }

  /** `kept` is `items` without the items that are not at one of the increasing positions `at`. */
  ghost predicate KeptAt(kept: seq<Item>, items: seq<Item>, at: seq<nat>) {
    && |at| == |kept|
    && (forall i :: 0 <= i < |at| ==> at[i] < |items| && kept[i] == items[at[i]])
    && (forall i, j :: 0 <= i < j < |at| ==> at[i] < at[j])
  }

  lemma KeepOrSkip(kept: seq<Item>, init: seq<Item>, at: seq<nat>, last: Item, keep: bool) returns (more: seq<nat>)
    requires KeptAt(kept, init, at)
    ensures KeptAt(kept + if keep then [last] else [], init + [last], more)
    ensures forall k :: k in more <==> k in at || (keep && k == |init|)
  {
    more := if keep then at + [|init|] else at;
  }

  /** The snaps being installed are the items with that status, all of them, in their order. */
  lemma {:induction false} InstallingAreKept(items: seq<Item>) returns (at: seq<nat>)
    ensures KeptAt(BeingInstalled(items), items, at)
    ensures forall k: nat :: k < |items| ==> (k in at <==> items[k].status == Installing)
  {
    if items == [] {
      at := [];
    } else {
      var init, last := items[..|items| - 1], items[|items| - 1];
      var before := InstallingAreKept(init);
      at := KeepOrSkip(BeingInstalled(init), init, before, last, last.status == Installing);
      assert items == init + [last];
      assert |init| !in before;
    }
  }

  /** What is left without `others` is all items with another id than theirs, in their order. */
  lemma {:induction false} OthersAreKept(items: seq<Item>, others: seq<Item>) returns (at: seq<nat>)
    ensures KeptAt(Without(items, others), items, at)
    ensures forall k: nat :: k < |items| ==> (k in at <==> !HasId(others, items[k].id))
  {
    if items == [] {
      at := [];
    } else {
      var init, last := items[..|items| - 1], items[|items| - 1];
      var before := OthersAreKept(init, others);
      at := KeepOrSkip(Without(init, others), init, before, last, !HasId(others, last.id));
      assert items == init + [last];
      assert |init| !in before;
    }
  }

  /** Adding a list without repetitions appends what is new in it. */
  lemma {:induction false} AddedDistinct(models: seq<Item>, items: seq<Item>)
    requires DistinctIds(items)
    ensures Added(models, items) == models + Without(items, models)
  {
    if items != [] {
      var init, last := items[..|items| - 1], items[|items| - 1];
      AddedDistinct(models, init);
      AppendIds(models, Without(init, models), last.id);
      WithoutIds(init, models, last.id);
    }
  }

  lemma {:induction false} AddedConcat(models: seq<Item>, a: seq<Item>, b: seq<Item>)
    ensures Added(models, a + b) == Added(Added(models, a), b)
  {
    if b == [] {
      assert a + b == a;
    } else {
      assert (a + b)[..|a + b| - 1] == a + b[..|b| - 1];
      AddedConcat(models, a, b[..|b| - 1]);
    }
  }

  lemma {:induction false} AddedKeepsDistinct(models: seq<Item>, items: seq<Item>)
    requires DistinctIds(models)
    ensures DistinctIds(Added(models, items))
  {
    if items != [] { AddedKeepsDistinct(models, items[..|items| - 1]); }
  }

  lemma {:induction false} InstallingDistinct(items: seq<Item>)
    requires DistinctIds(items)
    ensures DistinctIds(BeingInstalled(items))
    ensures forall x :: x in BeingInstalled(items) ==> x in items
  {
    if items != [] {
      var init, last := items[..|items| - 1], items[|items| - 1];
      InstallingDistinct(init);
      forall x | x in BeingInstalled(init) ensures x in items && x.id != last.id {
        var j :| 0 <= j < |init| && init[j] == x;
        assert items[j] == x;
      }
      forall i | 0 <= i < |BeingInstalled(init)| ensures BeingInstalled(init)[i].id != last.id {
        assert BeingInstalled(init)[i] in BeingInstalled(init);
      }
      assert last in items;
    }
  }

  lemma {:induction false} WithoutNothing(items: seq<Item>)
    ensures Without(items, []) == items
  {
    if items != [] {
      WithoutNothing(items[..|items| - 1]);
      assert items == items[..|items| - 1] + [items[|items| - 1]];
    }
  }

  lemma {:induction false} NothingLeft(items: seq<Item>, others: seq<Item>)
    requires forall x :: x in items ==> HasId(others, x.id)
    ensures Without(items, others) == []
  {
    if items != [] {
      NothingLeft(items[..|items| - 1], others);
      assert items[|items| - 1] in items;
    }
  }

  lemma {:induction false} WithoutConcat(a: seq<Item>, b: seq<Item>, others: seq<Item>)
    ensures Without(a + b, others) == Without(a, others) + Without(b, others)
  {
    if b == [] {
      assert a + b == a && Without(b, others) == [];
    } else {
      assert (a + b)[..|a + b| - 1] == a + b[..|b| - 1];
      WithoutConcat(a, b[..|b| - 1], others);
    }
  }

  lemma {:induction false} PartOfWithout(items: seq<Item>, others: seq<Item>)
    ensures forall x :: x in Without(items, others) ==> x in items
  {
    if items != [] { PartOfWithout(items[..|items| - 1], others); }
  }

  /**
   The home list: the snaps being installed, in order, then the installed snaps not among them, in order, all ids
   different. The silent addition of the former to the latter changes nothing of it.
   */
  lemma HomeListIs(tracked: seq<Item>, installed: seq<Item>)
    requires DistinctIds(tracked) && DistinctIds(installed)
    ensures Shown(tracked, installed) == BeingInstalled(tracked) + Without(installed, BeingInstalled(tracked))
    ensures Shown(tracked, installed) == Added([], BeingInstalled(tracked) + installed)
    ensures DistinctIds(Shown(tracked, installed))
  {
    var first := BeingInstalled(tracked);
    InstallingDistinct(tracked);
    AddedToNothing(first);
    AddedKeepsDistinct(installed, first);
    AddedConcat([], first, Added(installed, first));
    SilentAddIsHidden(first, installed);
    AddedConcat([], first, installed);
    AddedDistinct(first, installed);
    AddedKeepsDistinct([], first + installed);
  }

  lemma AddedToNothing(items: seq<Item>)
    requires DistinctIds(items)
    ensures Added([], items) == items
  {
    AddedDistinct([], items);
    WithoutNothing(items);
  }

  /** Items added to the second list are not seen when it is added after the first, which holds them. */
  lemma SilentAddIsHidden(first: seq<Item>, installed: seq<Item>)
    requires DistinctIds(first) && DistinctIds(installed)
    ensures Added(first, Added(installed, first)) == Added(first, installed)
  {
    var extra := Without(first, installed);
    AddedDistinct(installed, first);
    AddedKeepsDistinct(installed, first);
    AddedDistinct(first, installed + extra);
    AddedDistinct(first, installed);
    WithoutConcat(installed, extra, first);
    PartOfWithout(first, installed);
    forall x | x in extra ensures HasId(first, x.id) {
      var i :| 0 <= i < |first| && first[i] == x;
    }
    NothingLeft(extra, first);
  }
}
