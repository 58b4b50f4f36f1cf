/** `LatestProductsManager.get_products_for_main_page`: the newest products of
    each requested product model, optionally with one model moved to the front. */
module LatestProducts {
  import opened Wrappers

  /** How many rows the per-model query keeps (`[:5]`). */
  const LatestLimit: nat := 5

  /** One content-type registry entry: a model name and the primary keys of
      that model's table, in storage order. */
  datatype Entry = Entry(model: string, ids: seq<nat>)

  /** A product instance, as far as the aggregator sees it: the model name of
      its class and its primary key. */
  datatype Item = Item(model: string, id: nat)

  /** The largest key of a non-empty table. */
  function MaxId(ids: seq<nat>): (m: nat)
    requires |ids| > 0
    ensures m in ids
    ensures forall x :: x in ids ==> x <= m
  {
    if |ids| == 1 then ids[0]
    else
      var rest := MaxId(ids[1..]);
      assert ids == [ids[0]] + ids[1..];
      if ids[0] >= rest then ids[0] else rest
  }

  /** The keys other than `v`, in the same order. */
  function Without(ids: seq<nat>, v: nat): (r: seq<nat>)
    ensures forall x :: x in r <==> x in ids && x != v
    ensures v in ids ==> |r| < |ids|
    ensures |r| <= |ids|
  {
    if |ids| == 0 then []
    else if ids[0] == v then Without(ids[1..], v)
    else [ids[0]] + Without(ids[1..], v)
  }

  /** `order_by('-id')[:k]`: the at most k largest keys, largest first. */
  function LatestIds(ids: seq<nat>, k: nat): (r: seq<nat>)
    ensures |r| <= k
    ensures forall x :: x in r ==> x in ids
    ensures forall i, j :: 0 <= i < j < |r| ==> r[i] > r[j]
    ensures forall x, y :: x in ids && x !in r && y in r ==> x < y
    ensures |r| < k ==> forall x :: x in ids ==> x in r
    decreases k
  {
    if k == 0 || |ids| == 0 then []
    else
      var m := MaxId(ids);
      var older := LatestIds(Without(ids, m), k - 1);
      assert forall j :: 0 <= j < |older| ==> older[j] < m by {
        forall j | 0 <= j < |older| ensures older[j] < m {
          assert older[j] in older;
        }
      }
      [m] + older
  }

  /** Tags each key with the model it belongs to. */
  function ItemsOf(model: string, ids: seq<nat>): (r: seq<Item>)
    ensures |r| == |ids|
    ensures forall i :: 0 <= i < |r| ==> r[i] == Item(model, ids[i])
    ensures forall x :: Item(model, x) in r <==> x in ids
  {
    var r := seq(|ids|, i requires 0 <= i < |ids| => Item(model, ids[i]));
    assert forall x :: x in ids ==> Item(model, x) in r by {
      forall x | x in ids ensures Item(model, x) in r {
        var k :| 0 <= k < |ids| && ids[k] == x;
        assert r[k] == Item(model, x);
      }
    }
    r
  }

  /** What one registry entry contributes: `order_by('-id')[:5]` on its
      table. */
  function Latest(e: Entry): (r: seq<Item>)
  {
    ItemsOf(e.model, LatestIds(e.ids, LatestLimit))
  }

  /** Each entry contributes at most five of its own rows, strictly newest
      first, and every row it leaves out is older than every row it keeps. */
  lemma LatestSpec(e: Entry)
    ensures |Latest(e)| <= LatestLimit
    ensures forall i :: 0 <= i < |Latest(e)| ==> Latest(e)[i].model == e.model && Latest(e)[i].id in e.ids
    ensures forall i, j :: 0 <= i < j < |Latest(e)| ==> Latest(e)[i].id > Latest(e)[j].id
    ensures forall x, i :: x in e.ids && Item(e.model, x) !in Latest(e) && 0 <= i < |Latest(e)| ==> x < Latest(e)[i].id
    ensures |Latest(e)| < LatestLimit ==> forall x :: x in e.ids ==> Item(e.model, x) in Latest(e)
  {
  }

  /** `ContentType.objects.filter(model__in=args)`: the entries whose model is
      requested, in registry order (not in the order of the request). */
  function Matching(registry: seq<Entry>, args: seq<string>): (r: seq<Entry>)
    ensures |r| <= |registry|
    ensures forall e :: e in r <==> e in registry && e.model in args
  {
    if |registry| == 0 then []
    else
      (if registry[0].model in args then [registry[0]] else []) + Matching(registry[1..], args)
  }

  /** The list the `for` loop builds: each entry's contribution, appended in
      turn. */
  function Collected(entries: seq<Entry>): (r: seq<Item>)
  {
    if |entries| == 0 then []
    else Collected(entries[..|entries| - 1]) + Latest(entries[|entries| - 1])
  }

  /** The model names the registry knows. */
  function ModelNames(registry: seq<Entry>): (r: seq<string>)
  {
    seq(|registry|, i requires 0 <= i < |registry| => registry[i].model)
  }

  /** The three tests before the reorder: `with_respect_to` is truthy, the
      registry has that model, and it is among the requested names. */
  predicate Reorders(registry: seq<Entry>, args: seq<string>, withRespectTo: Option<string>)
  {
    withRespectTo.Some? && withRespectTo.value != ""
    && withRespectTo.value in ModelNames(registry)
    && withRespectTo.value in args
  }

  /** The sort key: the item's model name starts with `prefix`. */
  predicate Key(x: Item, prefix: string)
  {
    prefix <= x.model
  }

  /** The items whose key equals `key`, in their original order. */
  function Select(items: seq<Item>, prefix: string, key: bool): (r: seq<Item>)
  {
    if |items| == 0 then []
    else (if Key(items[0], prefix) == key then [items[0]] else []) + Select(items[1..], prefix, key)
  }

  /** `sorted(products, key=startswith, reverse=True)`: Python's sort is
      stable also when reversed, so the items with a true key come first and
      each group keeps its order. */
  function Prioritize(items: seq<Item>, prefix: string): (r: seq<Item>)
  {
    Select(items, prefix, true) + Select(items, prefix, false)
  }

  /** The whole result of `get_products_for_main_page`. */
  function MainPage(registry: seq<Entry>, args: seq<string>, withRespectTo: Option<string>): (r: seq<Item>)
  {
    var products := Collected(Matching(registry, args));
    if Reorders(registry, args, withRespectTo) then Prioritize(products, withRespectTo.value)
    else products
  }

  /** `get_products_for_main_page(*args, with_respect_to=...)`. */
  method GetProductsForMainPage(registry: seq<Entry>, args: seq<string>, withRespectTo: Option<string>)
    returns (products: seq<Item>)
    ensures products == MainPage(registry, args, withRespectTo)
  {
    products := [];
    var ctModels := Matching(registry, args);
    var i := 0;
    while i < |ctModels|
      invariant 0 <= i <= |ctModels|
      invariant products == Collected(ctModels[..i])
    {
      assert ctModels[..i + 1][..i] == ctModels[..i];
      products := products + Latest(ctModels[i]);
      i := i + 1;
    }
    assert ctModels[..i] == ctModels;
    if withRespectTo.Some? && withRespectTo.value != "" {
      var wrt := withRespectTo.value;
      if wrt in ModelNames(registry) {
        if wrt in args {
          return Prioritize(products, wrt);
        }
      }
    }
  }

  // ---------------------------------------------------------------------
  // The reorder is a stable partition

  /** No item whose key is false comes before an item whose key is true. */
  predicate Grouped(items: seq<Item>, prefix: string)
  {
    forall i, j :: 0 <= i < j < |items| && Key(items[j], prefix) ==> Key(items[i], prefix)
  }

  lemma {:induction false} SelectKeys(items: seq<Item>, prefix: string, key: bool)
    ensures forall x :: x in Select(items, prefix, key) <==> x in items && Key(x, prefix) == key
  {
    if |items| > 0 {
      SelectKeys(items[1..], prefix, key);
      assert items == [items[0]] + items[1..];
    }
  }

  lemma {:induction false} SelectConcat(a: seq<Item>, b: seq<Item>, prefix: string, key: bool)
    ensures Select(a + b, prefix, key) == Select(a, prefix, key) + Select(b, prefix, key)
  {
    if |a| > 0 {
      assert (a + b)[1..] == a[1..] + b;
      SelectConcat(a[1..], b, prefix, key);
    } else {
      assert a + b == b;
    }
  }

  /** Selecting again keeps a selection as it is and empties the other group. */
  lemma {:induction false} SelectSelect(items: seq<Item>, prefix: string, key: bool)
    ensures Select(Select(items, prefix, key), prefix, key) == Select(items, prefix, key)
    ensures Select(Select(items, prefix, key), prefix, !key) == []
  {
    if |items| > 0 {
      var head := if Key(items[0], prefix) == key then [items[0]] else [];
      SelectSelect(items[1..], prefix, key);
      SelectConcat(head, Select(items[1..], prefix, key), prefix, key);
      SelectConcat(head, Select(items[1..], prefix, key), prefix, !key);
    }
  }

  lemma {:induction false} SelectMultiset(items: seq<Item>, prefix: string)
    ensures multiset(Select(items, prefix, true)) + multiset(Select(items, prefix, false)) == multiset(items)
  {
    if |items| > 0 {
      SelectMultiset(items[1..], prefix);
      assert items == [items[0]] + items[1..];
    }
  }

  lemma {:induction false} SelectNone(items: seq<Item>, prefix: string, key: bool)
    requires forall k :: 0 <= k < |items| ==> Key(items[k], prefix) != key
    ensures Select(items, prefix, key) == []
  {
    if |items| > 0 {
      SelectNone(items[1..], prefix, key);
    }
  }

  /** A grouped list is its true group followed by its false group. */
  lemma {:induction false} GroupedSplits(items: seq<Item>, prefix: string)
    requires Grouped(items, prefix)
    ensures items == Select(items, prefix, true) + Select(items, prefix, false)
  {
    if |items| > 0 {
      assert Grouped(items[1..], prefix);
      GroupedSplits(items[1..], prefix);
      if !Key(items[0], prefix) {
        forall k | 0 <= k < |items[1..]| ensures !Key(items[1..][k], prefix) {
          assert items[1..][k] == items[k + 1];
        }
        SelectNone(items[1..], prefix, true);
      }
    }
  }

  /** The reorder only moves items: the result is a permutation. */
  lemma PrioritizePermutation(items: seq<Item>, prefix: string)
    ensures multiset(Prioritize(items, prefix)) == multiset(items)
  {
    SelectMultiset(items, prefix);
  }

  /** Every item whose model name starts with the prefix comes before every
      item whose name does not. */
  lemma PrioritizeGrouped(items: seq<Item>, prefix: string)
    ensures Grouped(Prioritize(items, prefix), prefix)
  {
    var front, back := Select(items, prefix, true), Select(items, prefix, false);
    var r := front + back;
    SelectKeys(items, prefix, true);
    SelectKeys(items, prefix, false);
    forall k | 0 <= k < |r| ensures Key(r[k], prefix) == (k < |front|) {
      if k < |front| {
        assert r[k] == front[k] && front[k] in front;
      } else {
        assert r[k] == back[k - |front|] && back[k - |front|] in back;
      }
    }
  }

  /** Inside each group the items keep the order they were collected in. */
  lemma PrioritizeStable(items: seq<Item>, prefix: string)
    ensures Select(Prioritize(items, prefix), prefix, true) == Select(items, prefix, true)
    ensures Select(Prioritize(items, prefix), prefix, false) == Select(items, prefix, false)
  {
    var front, back := Select(items, prefix, true), Select(items, prefix, false);
    SelectConcat(front, back, prefix, true);
    SelectConcat(front, back, prefix, false);
    SelectSelect(items, prefix, true);
    SelectSelect(items, prefix, false);
  }

  /** The reorder is the only grouped arrangement that keeps each group's
      order, i.e. exactly what a stable descending sort on the key yields. */
  lemma PrioritizeUnique(items: seq<Item>, prefix: string, r: seq<Item>)
    requires Grouped(r, prefix)
    requires Select(r, prefix, true) == Select(items, prefix, true)
    requires Select(r, prefix, false) == Select(items, prefix, false)
    ensures r == Prioritize(items, prefix)
  {
    GroupedSplits(r, prefix);
  }

  // ---------------------------------------------------------------------
  // The collected list

  /** At most five items per matched entry, each one a row of a matched
      entry's model. */
  lemma {:induction false} CollectedSpec(entries: seq<Entry>)
    ensures |Collected(entries)| <= LatestLimit * |entries|
    ensures forall x :: x in Collected(entries) ==>
              exists e :: e in entries && x.model == e.model && x.id in e.ids
  {
    if |entries| > 0 {
      var init, last := entries[..|entries| - 1], entries[|entries| - 1];
      CollectedSpec(init);
      LatestSpec(last);
      forall x | x in Collected(entries)
        ensures exists e :: e in entries && x.model == e.model && x.id in e.ids
      {
        if x in Collected(init) {
          var e :| e in init && x.model == e.model && x.id in e.ids;
          assert e in entries;
        } else {
          assert x in Latest(last);
          var i :| 0 <= i < |Latest(last)| && Latest(last)[i] == x;
        }
      }
    }
  }

  /** The registry lookup keeps the registry's order: splitting the registry
      splits the matched entries at the same place. */
  lemma {:induction false} MatchingConcat(r1: seq<Entry>, r2: seq<Entry>, args: seq<string>)
    ensures Matching(r1 + r2, args) == Matching(r1, args) + Matching(r2, args)
  {
    if |r1| > 0 {
      assert (r1 + r2)[0] == r1[0];
      assert (r1 + r2)[1..] == r1[1..] + r2;
      MatchingConcat(r1[1..], r2, args);
    } else {
      assert r1 + r2 == r2;
    }
  }

  lemma CollectedSnoc(entries: seq<Entry>, e: Entry)
    ensures Collected(entries + [e]) == Collected(entries) + Latest(e)
  {
  }

  /** The loop appends: the contributions of a split list of entries are
      the two halves' contributions, in order. */
  lemma {:induction false} CollectedConcat(a: seq<Entry>, b: seq<Entry>)
    ensures Collected(a + b) == Collected(a) + Collected(b)
    decreases |b|
  {
    if |b| == 0 {
      assert a + b == a;
    } else {
      var init, last := b[..|b| - 1], b[|b| - 1];
      assert b == init + [last];
      assert a + b == (a + init) + [last];
      var ca, ci, cl := Collected(a), Collected(init), Latest(last);
      calc {
        Collected(a + b);
        { CollectedSnoc(a + init, last); }
        Collected(a + init) + cl;
        { CollectedConcat(a, init); }
        (ca + ci) + cl;
        { assert (ca + ci) + cl == ca + (ci + cl); }
        ca + (ci + cl);
        { CollectedSnoc(init, last); }
        ca + Collected(b);
      }
    }
  }

  /** Without a reorder, the products of registry entries listed earlier
      come before those of entries listed later, whatever the order of the
      requested names. */
  lemma RegistryOrder(r1: seq<Entry>, r2: seq<Entry>, args: seq<string>)
    ensures MainPage(r1 + r2, args, None) == Collected(Matching(r1, args)) + Collected(Matching(r2, args))
  {
    MatchingConcat(r1, r2, args);
    CollectedConcat(Matching(r1, args), Matching(r2, args));
  }

  /** The registry lookup depends only on which names are requested, not on
      their order or repetition. */
  lemma {:induction false} MatchingNamesOnly(registry: seq<Entry>, args1: seq<string>, args2: seq<string>)
    requires forall n :: n in args1 <==> n in args2
    ensures Matching(registry, args1) == Matching(registry, args2)
  {
    if |registry| > 0 {
      MatchingNamesOnly(registry[1..], args1, args2);
    }
  }

  /** The order of the collected list follows the registry: requesting the
      same names in another order gives the same products. */
  lemma MainPageNamesOnly(registry: seq<Entry>, args1: seq<string>, args2: seq<string>, withRespectTo: Option<string>)
    requires forall n :: n in args1 <==> n in args2
    ensures MainPage(registry, args1, withRespectTo) == MainPage(registry, args2, withRespectTo)
  {
    MatchingNamesOnly(registry, args1, args2);
  }

  /** A requested name the registry does not know contributes nothing and
      raises nothing. */
  lemma UnknownNameIgnored(registry: seq<Entry>, args: seq<string>, name: string, withRespectTo: Option<string>)
    requires name !in ModelNames(registry)
    ensures MainPage(registry, args + [name], withRespectTo) == MainPage(registry, args, withRespectTo)
  {
    MatchingUnknownName(registry, args, name);
  }

  lemma {:induction false} MatchingUnknownName(registry: seq<Entry>, args: seq<string>, name: string)
    requires name !in ModelNames(registry)
    ensures Matching(registry, args + [name]) == Matching(registry, args)
  {
    if |registry| > 0 {
      assert registry[0].model == ModelNames(registry)[0];
      assert ModelNames(registry[1..]) == ModelNames(registry)[1..];
      MatchingUnknownName(registry[1..], args, name);
    }
  }

  /** Requesting no names gives an empty list. */
  lemma NoNamesNoProducts(registry: seq<Entry>, withRespectTo: Option<string>)
    ensures MainPage(registry, [], withRespectTo) == []
  {
  }

  /** Without the three conditions the collected list comes back unchanged,
      exactly as with no `with_respect_to` at all. */
  lemma NoReorderKeepsCollected(registry: seq<Entry>, args: seq<string>, withRespectTo: Option<string>)
    requires !Reorders(registry, args, withRespectTo)
    ensures MainPage(registry, args, withRespectTo) == MainPage(registry, args, None)
    ensures MainPage(registry, args, withRespectTo) == Collected(Matching(registry, args))
  {
  }

  /** With them, the result is a permutation of the collected list in which
      the prioritised models come first and each group keeps its order. */
  lemma ReorderSpec(registry: seq<Entry>, args: seq<string>, withRespectTo: Option<string>)
    requires Reorders(registry, args, withRespectTo)
    ensures var products := Collected(Matching(registry, args));
            var r := MainPage(registry, args, withRespectTo);
            multiset(r) == multiset(products)
            && Grouped(r, withRespectTo.value)
            && Select(r, withRespectTo.value, true) == Select(products, withRespectTo.value, true)
            && Select(r, withRespectTo.value, false) == Select(products, withRespectTo.value, false)
  {
    var products := Collected(Matching(registry, args));
    PrioritizePermutation(products, withRespectTo.value);
    PrioritizeGrouped(products, withRespectTo.value);
    PrioritizeStable(products, withRespectTo.value);
  }

  /** With the registry listing notebooks before smartphones, asking for
      smartphones first still yields the notebooks first. */
  lemma RegistryOrderWins(notebooks: seq<nat>, smartphones: seq<nat>)
    ensures var registry := [Entry("notebook", notebooks), Entry("smartphones", smartphones)];
            MainPage(registry, ["smartphones", "notebook"], None)
            == Latest(Entry("notebook", notebooks)) + Latest(Entry("smartphones", smartphones))
  {
    var registry := [Entry("notebook", notebooks), Entry("smartphones", smartphones)];
    var args := ["smartphones", "notebook"];
    assert registry[1..][1..] == [];
    assert Matching(registry[1..], args) == [registry[1]];
    assert Matching(registry, args) == registry;
    assert registry[..1] == [registry[0]];
    assert [registry[0]][..0] == [];
    assert Collected([registry[0]]) == Latest(registry[0]);
    assert Collected(registry) == Collected([registry[0]]) + Latest(registry[1]);
  }
}
