/**
 * Logical items: the occupied cells whose items share `(num_id, name,
 * timestamp)` form one group, reported with its cells in ascending location
 * order and with the item stored at its least cell as representative.
 */
module Grouping {
  import opened Common
  import opened Locations
  import opened Items

  predicate StrictlySorted(s: seq<Location>) {
    forall i, j :: 0 <= i < j < |s| ==> Lt(s[i], s[j])
  }

  /** A cell below every cell of an ascending sequence may go in front of it. */
  lemma SortedPrepend(x: Location, s: seq<Location>)
    requires StrictlySorted(s) && forall i :: 0 <= i < |s| ==> Lt(x, s[i])
    ensures StrictlySorted([x] + s)
  {
    var r := [x] + s;
    forall i, j | 0 <= i < j < |r| ensures Lt(r[i], r[j]) {
      assert r[j] == s[j - 1];
      if i > 0 {
        assert r[i] == s[i - 1];
      }
    }
  }

  /** A cell below the first cell of an ascending sequence is below all of them. */
  lemma BelowFirst(x: Location, s: seq<Location>)
    requires StrictlySorted(s) && |s| > 0 && Lt(x, s[0])
    ensures forall i :: 0 <= i < |s| ==> Lt(x, s[i])
  {
    forall i | 0 < i < |s| ensures Lt(x, s[i]) {
      LtIsStrictTotalOrder(x, s[0], s[i]);
    }
  }

  /** Inserts a new cell into an ascending sequence of cells. */
  function Insert(x: Location, s: seq<Location>): (r: seq<Location>)
    requires StrictlySorted(s) && x !in s
    ensures StrictlySorted(r)
    ensures forall y :: y in r <==> y == x || y in s
    ensures multiset(r) == multiset(s) + multiset{x}
  {
    if s == [] then [x]
    else if Lt(x, s[0]) then
      BelowFirst(x, s);
      SortedPrepend(x, s);
      [x] + s
    else
      var rest := Insert(x, s[1..]);
      LtIsStrictTotalOrder(x, s[0], x);
      assert forall i :: 0 <= i < |rest| ==> Lt(s[0], rest[i]) by {
        forall i | 0 <= i < |rest| ensures Lt(s[0], rest[i]) {
          assert rest[i] in rest;
          if rest[i] != x {
            var j :| 0 <= j < |s[1..]| && s[1..][j] == rest[i];
            assert s[j + 1] == rest[i];
          }
        }
      }
      SortedPrepend(s[0], rest);
      assert s == [s[0]] + s[1..];
      [s[0]] + rest
  }

  /** The source's `sort_by` on a group's cells, for cells without repetition. */
  function SortLocations(s: seq<Location>): (r: seq<Location>)
    requires NoDuplicates(s)
    ensures StrictlySorted(r)
    ensures multiset(r) == multiset(s)
  {
    if s == [] then []
    else
      var rest := SortLocations(s[1..]);
      assert s[0] !in multiset(s[1..]);
      assert s == [s[0]] + s[1..];
      Insert(s[0], rest)
  }

  /** Every non-empty finite set of cells has a least cell. */
  lemma {:induction false} HasLeast(s: set<Location>)
    requires s != {}
    ensures exists m :: m in s && forall x :: x in s ==> x == m || Lt(m, x)
  {
    var y :| y in s;
    if s - {y} == {} {
      assert s == {y};
    } else {
      HasLeast(s - {y});
      var m :| m in s - {y} && forall x :: x in s - {y} ==> x == m || Lt(m, x);
      LtIsStrictTotalOrder(m, y, m);
      if Lt(y, m) {
        forall x | x in s ensures x == y || Lt(y, x) {
          if x != y { LtIsStrictTotalOrder(y, m, x); }
        }
      } else {
        forall x | x in s ensures x == m || Lt(m, x) {
          if x == y { LtIsStrictTotalOrder(m, y, x); }
        }
      }
    }
  }

  ghost function Least(s: set<Location>): (m: Location)
    requires s != {}
    ensures m in s && forall x :: x in s ==> x == m || Lt(m, x)
  {
    HasLeast(s);
    var m :| m in s && forall x :: x in s ==> x == m || Lt(m, x);
    m
  }

  /** The occupied cells whose item has key `k`. */
  ghost function CellsOf(items: map<Location, Item>, k: Key): set<Location> {
    set l | l in items && KeyOf(items[l]) == k
  }

  /** The keys of all logical items in the grid. */
  ghost function KeysOf(items: map<Location, Item>): set<Key> {
    set l | l in items :: KeyOf(items[l])
  }

  /** The representative of a group: the item stored at its least cell. */
  ghost function Representative(items: map<Location, Item>, k: Key): Item
    requires k in KeysOf(items)
  {
    var l :| l in items && KeyOf(items[l]) == k;
    assert l in CellsOf(items, k);
    items[Least(CellsOf(items, k))]
  }

  /** One entry of `grouped_items`: a representative item and its cells. */
  datatype Group = Group(item: Item, locations: seq<Location>)

  /** `g` is the group of key `KeyOf(g.item)`: all its cells, ascending, the first one's item. */
  ghost predicate IsGroupOf(items: map<Location, Item>, g: Group) {
    |g.locations| > 0 && StrictlySorted(g.locations) &&
    g.locations[0] in items && g.item == items[g.locations[0]] &&
    forall l :: l in g.locations <==> l in items && KeyOf(items[l]) == KeyOf(g.item)
  }

  /** No two groups of `gs` share a key. */
  predicate DistinctKeys(gs: seq<Group>) {
    forall i, j :: 0 <= i < j < |gs| ==> KeyOf(gs[i].item) != KeyOf(gs[j].item)
  }

  /** `gs` lists every group of `items` once, in some order. */
  ghost predicate IsGrouping(items: map<Location, Item>, gs: seq<Group>) {
    (forall i :: 0 <= i < |gs| ==> IsGroupOf(items, gs[i])) &&
    DistinctKeys(gs) &&
    (forall l :: l in items ==> KeyOf(items[l]) in GroupKeys(gs))
  }

  /** Grouping partitions the occupied cells: each lies in exactly one group. */
  lemma GroupingPartitions(items: map<Location, Item>, gs: seq<Group>, l: Location)
    requires IsGrouping(items, gs) && l in items
    ensures exists i :: 0 <= i < |gs| && l in gs[i].locations
    ensures forall i, j ::
              0 <= i < |gs| && 0 <= j < |gs| && l in gs[i].locations && l in gs[j].locations ==> i == j
  {
    var i :| 0 <= i < |gs| && KeyOf(gs[i].item) == KeyOf(items[l]);
    assert IsGroupOf(items, gs[i]);
    forall i, j | 0 <= i < |gs| && 0 <= j < |gs| && l in gs[i].locations && l in gs[j].locations
      ensures i == j
    {
      assert KeyOf(gs[i].item) == KeyOf(items[l]) == KeyOf(gs[j].item);
    }
  }

  /** Every group's key is a key of the grid. */
  lemma GroupKeysInGrid(items: map<Location, Item>, gs: seq<Group>, k: Key)
    requires forall i :: 0 <= i < |gs| ==> IsGroupOf(items, gs[i])
    requires k in GroupKeys(gs)
    ensures k in KeysOf(items)
  {
    var i :| 0 <= i < |gs| && KeyOf(gs[i].item) == k;
    assert IsGroupOf(items, gs[i]);
    var l := gs[i].locations[0];
    assert l in items && KeyOf(items[l]) == k;
  }

  /** The groups of a grouping carry exactly the keys of the grid. */
  lemma GroupingKeys(items: map<Location, Item>, gs: seq<Group>)
    requires IsGrouping(items, gs)
    ensures GroupKeys(gs) == KeysOf(items)
  {
    forall k | k in GroupKeys(gs) ensures k in KeysOf(items) {
      GroupKeysInGrid(items, gs, k);
    }
    forall k | k in KeysOf(items) ensures k in GroupKeys(gs) {
      GridKeysInGroups(items, gs, k);
    }
  }

  /** Every key of the grid is some group's key, when the groups cover the occupied cells. */
  lemma GridKeysInGroups(items: map<Location, Item>, gs: seq<Group>, k: Key)
    requires forall l :: l in items ==> KeyOf(items[l]) in GroupKeys(gs)
    requires k in KeysOf(items)
    ensures k in GroupKeys(gs)
  {
    var l :| l in items && KeyOf(items[l]) == k;
  }

  /** A group's item is the representative of its key. */
  lemma GroupItemIsRepresentative(items: map<Location, Item>, g: Group)
    requires IsGroupOf(items, g)
    ensures KeyOf(g.item) in KeysOf(items)
    ensures g.item == Representative(items, KeyOf(g.item))
  {
    var k := KeyOf(g.item);
    var first := g.locations[0];
    assert first in CellsOf(items, k);
    var m := Least(CellsOf(items, k));
    if m != first {
      assert m in g.locations;
      var j :| 0 <= j < |g.locations| && g.locations[j] == m;
      assert j != 0;
      assert Lt(first, m);
      LtIsStrictTotalOrder(first, m, first);
    }
  }

  /** A fixed choice of an element, so that sums over sets unfold consistently. */
  ghost function Pick(ks: set<Key>): (k: Key)
    requires ks != {}
    ensures k in ks
  {
    var k :| k in ks; k
  }

  /** Sum of the representatives' quantities over a set of the grid's keys. */
  ghost function QuantitySum(items: map<Location, Item>, ks: set<Key>): nat
    requires ks <= KeysOf(items)
    decreases ks
  {
    if ks == {} then 0
    else
      var k := Pick(ks);
      Representative(items, k).quantity + QuantitySum(items, ks - {k})
  }

  /** A sum over a set may take out any of its elements first. */
  lemma {:induction false} QuantitySumRemove(items: map<Location, Item>, ks: set<Key>, k: Key)
    requires ks <= KeysOf(items) && k in ks
    ensures QuantitySum(items, ks) == Representative(items, k).quantity + QuantitySum(items, ks - {k})
    decreases ks
  {
    var p := Pick(ks);
    if p != k {
      QuantitySumRemove(items, ks - {p}, k);
      QuantitySumRemove(items, ks - {k}, p);
      assert ks - {p} - {k} == ks - {k} - {p};
    }
  }

  /** What a quantity search matches on: a key's id or its name. */
  datatype Selector = ById(numId: nat) | ByName(name: string)

  predicate Selects(sel: Selector, k: Key) {
    match sel
    case ById(numId) => k.numId == numId
    case ByName(name) => k.name == name
  }

  /** The keys of `ks` that a search selects. */
  function SelectedKeys(ks: set<Key>, sel: Selector): set<Key> {
    set k | k in ks && Selects(sel, k)
  }

  /** The grid's keys that a search selects. */
  ghost function KeysWith(items: map<Location, Item>, sel: Selector): set<Key> {
    SelectedKeys(KeysOf(items), sel)
  }

  /** The keys carried by a sequence of groups. */
  function GroupKeys(gs: seq<Group>): (ks: set<Key>)
    ensures forall i :: 0 <= i < |gs| ==> KeyOf(gs[i].item) in ks
    ensures forall k :: k in ks ==> exists i :: 0 <= i < |gs| && KeyOf(gs[i].item) == k
  {
    if gs == [] then {}
    else GroupKeys(gs[..|gs| - 1]) + {KeyOf(gs[|gs| - 1].item)}
  }

  /** Every group's item is the representative of its key. */
  ghost predicate Representatives(items: map<Location, Item>, gs: seq<Group>) {
    forall i :: 0 <= i < |gs| ==>
      KeyOf(gs[i].item) in KeysOf(items) && gs[i].item == Representative(items, KeyOf(gs[i].item))
  }

  /** What a grouping tells a search: representatives, distinct keys, all the keys. */
  lemma GroupingSummary(items: map<Location, Item>, gs: seq<Group>)
    requires IsGrouping(items, gs)
    ensures Representatives(items, gs) && DistinctKeys(gs)
    ensures GroupKeys(gs) == KeysOf(items)
  {
    forall i | 0 <= i < |gs|
      ensures KeyOf(gs[i].item) in KeysOf(items) && gs[i].item == Representative(items, KeyOf(gs[i].item))
    {
      GroupItemIsRepresentative(items, gs[i]);
    }
    GroupingKeys(items, gs);
  }

  /** Total quantity of the groups whose key `sel` selects, counting each group once. */
  function SelectedQuantity(gs: seq<Group>, sel: Selector): nat {
    if gs == [] then 0
    else
      var g := gs[|gs| - 1];
      SelectedQuantity(gs[..|gs| - 1], sel) + (if Selects(sel, KeyOf(g.item)) then g.item.quantity else 0)
  }

  /** Dropping the last group keeps the representatives and the distinct keys; the last key is new. */
  lemma DropLastGroup(items: map<Location, Item>, gs: seq<Group>)
    requires gs != [] && Representatives(items, gs) && DistinctKeys(gs)
    ensures Representatives(items, gs[..|gs| - 1]) && DistinctKeys(gs[..|gs| - 1])
    ensures KeyOf(gs[|gs| - 1].item) !in GroupKeys(gs[..|gs| - 1])
    ensures GroupKeys(gs) == GroupKeys(gs[..|gs| - 1]) + {KeyOf(gs[|gs| - 1].item)}
    ensures KeyOf(gs[|gs| - 1].item) in KeysOf(items)
    ensures gs[|gs| - 1].item == Representative(items, KeyOf(gs[|gs| - 1].item))
  {
    var init := gs[..|gs| - 1];
    assert forall i :: 0 <= i < |init| ==> init[i] == gs[i];
    forall i | 0 <= i < |init| ensures KeyOf(init[i].item) != KeyOf(gs[|gs| - 1].item) {
      assert KeyOf(gs[i].item) != KeyOf(gs[|gs| - 1].item);
    }
  }

  /** Adding a new key to a set of keys adds its representative's quantity to the sum. */
  lemma QuantitySumAdd(items: map<Location, Item>, ks: set<Key>, k: Key)
    requires ks <= KeysOf(items) && k in KeysOf(items) && k !in ks
    ensures QuantitySum(items, ks + {k}) == QuantitySum(items, ks) + Representative(items, k).quantity
  {
    QuantitySumRemove(items, ks + {k}, k);
    assert ks + {k} - {k} == ks;
  }

  /** Summing over representative groups with distinct keys is summing over the selected keys. */
  lemma {:induction false} SelectedQuantityIsSum(items: map<Location, Item>, gs: seq<Group>, sel: Selector)
    requires Representatives(items, gs) && DistinctKeys(gs)
    ensures GroupKeys(gs) <= KeysOf(items)
    ensures SelectedQuantity(gs, sel) == QuantitySum(items, SelectedKeys(GroupKeys(gs), sel))
  {
    if gs != [] {
      var init := gs[..|gs| - 1];
      var g := gs[|gs| - 1];
      var k := KeyOf(g.item);
      DropLastGroup(items, gs);
      SelectedQuantityIsSum(items, init, sel);
      var before := SelectedKeys(GroupKeys(init), sel);
      var after := SelectedKeys(GroupKeys(gs), sel);
      assert SelectedQuantity(gs, sel) ==
             SelectedQuantity(init, sel) + (if Selects(sel, k) then g.item.quantity else 0);
      if Selects(sel, k) {
        assert after == before + {k};
        QuantitySumAdd(items, before, k);
      } else {
        assert after == before;
      }
    }
  }

  /** Over a grouping, summing the selected groups sums the selected keys' representatives. */
  lemma GroupingQuantity(items: map<Location, Item>, gs: seq<Group>, sel: Selector)
    requires Representatives(items, gs) && DistinctKeys(gs) && GroupKeys(gs) == KeysOf(items)
    ensures SelectedQuantity(gs, sel) == QuantitySum(items, KeysWith(items, sel))
  {
    SelectedQuantityIsSum(items, gs, sel);
  }
}
