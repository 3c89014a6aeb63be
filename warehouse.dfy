/**
 * The warehouse: which item occupies each cell, how often each cell has been
 * filled, and the grid bounds. Items are placed by the usage-balanced
 * best-fit allocator, all-or-nothing; an Oversized item is removed as a whole
 * logical item; queries work on the grouped logical items.
 */
module Warehouse {
  import opened Common
  import opened Locations
  import opened Items
  import opened Grid
  import opened Grouping

  /**
   * The Fragile level cap of the best-fit allocator: `nivel_maximo`, or
   * `levels - 1` when unset. With no levels the source's unsigned subtraction
   * underflows; here the cap is -1 and no cell qualifies.
   */
  function FragileCap(item: Item, d: Dims): (cap: int)
    ensures item.maxLevel.Some? ==> cap == item.maxLevel.value
    ensures item.maxLevel.None? ==> cap == d.levels - 1
    ensures d.levels > 0 ==> forall l :: InBounds(l, d) && item.maxLevel.None? ==> l.level <= cap
  {
    if item.maxLevel.Some? then item.maxLevel.value else d.levels - 1
  }

  /** Outcome of a single-cell request: the best eligible cell, or no eligible cell at all. */
  ghost predicate SingleCellOutcome(items: map<Location, Item>, usage: map<Location, nat>, d: Dims,
                                    cap: Option<int>, r: Result<seq<Location>, Error>) {
    match r
    case Ok(locs) => |locs| == 1 && IsBestCell(items, usage, d, cap, locs[0])
    case Err(e) => e == NoCapacity && NoEligibleCell(items, d, cap)
  }

  /** Outcome of a run request: the best run of `k` free zones, or no such run at all. */
  ghost predicate RunOutcome(items: map<Location, Item>, usage: map<Location, nat>, d: Dims,
                             k: nat, r: Result<seq<Location>, Error>) {
    match r
    case Ok(locs) => |locs| > 0 && IsBestRun(items, usage, d, k, locs[0]) && locs == Run(locs[0], k)
    case Err(e) => e == NoCapacity && NoRun(items, d, k)
  }

  /** What `find_allocation_spot` returns, per quality. */
  ghost predicate AllocationOutcome(items: map<Location, Item>, usage: map<Location, nat>, d: Dims,
                                    item: Item, r: Result<seq<Location>, Error>) {
    match item.quality
    case Normal => SingleCellOutcome(items, usage, d, None, r)
    case Fragile => SingleCellOutcome(items, usage, d, Some(FragileCap(item, d)), r)
    case Oversized =>
      if item.requiredZones.None? || item.requiredZones.value == 0 then r == Err(InvalidConstraint)
      else RunOutcome(items, usage, d, item.requiredZones.value, r)
  }

  /** The allocation rules determine the answer: there is exactly one allowed outcome. */
  lemma AllocationOutcomeUnique(items: map<Location, Item>, usage: map<Location, nat>, d: Dims,
                                item: Item, r1: Result<seq<Location>, Error>, r2: Result<seq<Location>, Error>)
    requires AllocationOutcome(items, usage, d, item, r1) && AllocationOutcome(items, usage, d, item, r2)
    ensures r1 == r2
  {
    match item.quality
    case Normal =>
      if r1.Ok? && r2.Ok? {
        BestCellUnique(items, usage, d, None, r1.value[0], r2.value[0]);
        assert r1.value == [r1.value[0]] && r2.value == [r2.value[0]];
      }
    case Fragile =>
      if r1.Ok? && r2.Ok? {
        BestCellUnique(items, usage, d, Some(FragileCap(item, d)), r1.value[0], r2.value[0]);
        assert r1.value == [r1.value[0]] && r2.value == [r2.value[0]];
      }
    case Oversized =>
      if item.requiredZones.Some? && item.requiredZones.value > 0 && r1.Ok? && r2.Ok? {
        BestRunUnique(items, usage, d, item.requiredZones.value, r1.value[0], r2.value[0]);
      }
  }

  /**
   * A successful allocation already satisfies what `add_item` re-checks, and
   * more: the cells are distinct, inside the grid and free; a Fragile item's
   * cells respect its level cap; an Oversized item gets exactly
   * `required_zones` contiguous cells.
   */
  lemma AllocationRespectsConstraints(items: map<Location, Item>, usage: map<Location, nat>, d: Dims,
                                      item: Item, locs: seq<Location>)
    requires AllocationOutcome(items, usage, d, item, Ok(locs))
    ensures |locs| > 0 && NoDuplicates(locs)
    ensures forall i :: 0 <= i < |locs| ==> InBounds(locs[i], d) && locs[i] !in items
    ensures item.quality != Oversized ==> |locs| == 1
    ensures item.quality == Fragile && item.maxLevel.Some? ==>
              forall i :: 0 <= i < |locs| ==> locs[i].level <= item.maxLevel.value
    ensures item.quality == Oversized ==>
              item.requiredZones.Some? && |locs| == item.requiredZones.value && Contiguous(locs)
  {
    if item.quality == Oversized {
      RunShape(items, d, locs[0], item.requiredZones.value);
    }
  }

  /** `items` after storing `item` in each cell of `locs`, in order. */
  function Placed(items: map<Location, Item>, locs: seq<Location>, item: Item): map<Location, Item> {
    if locs == [] then items
    else Placed(items, locs[..|locs| - 1], item)[locs[|locs| - 1] := item]
  }

  /** After a placement the cells `locs` all hold `item`; every other cell is as in `items`. */
  lemma {:induction false} PlacedCells(items: map<Location, Item>, locs: seq<Location>, item: Item)
    ensures forall l :: l in Placed(items, locs, item) <==> l in items || l in locs
    ensures forall l :: l in Placed(items, locs, item) ==>
              Placed(items, locs, item)[l] == if l in locs then item else items[l]
  {
    if locs != [] {
      var init := locs[..|locs| - 1];
      PlacedCells(items, init, item);
      assert forall l :: l in locs <==> l in init || l == locs[|locs| - 1];
    }
  }

  /** `usage` after counting one more fill of each cell of `locs`, in order; a missing count is 0. */
  function Bumped(usage: map<Location, nat>, locs: seq<Location>): map<Location, nat> {
    if locs == [] then usage
    else
      var prev := Bumped(usage, locs[..|locs| - 1]);
      prev[locs[|locs| - 1] := UsageAt(prev, locs[|locs| - 1]) + 1]
  }

  /**
   * Counting distinct cells raises each of their counts by one and leaves
   * every other count as before; the cells counted gain an entry.
   */
  lemma {:induction false} BumpedCounts(usage: map<Location, nat>, locs: seq<Location>)
    requires NoDuplicates(locs)
    ensures forall l :: UsageAt(Bumped(usage, locs), l) == UsageAt(usage, l) + if l in locs then 1 else 0
    ensures forall l :: l in Bumped(usage, locs) <==> l in usage || l in locs
  {
    if locs != [] {
      var init := locs[..|locs| - 1];
      var last := locs[|locs| - 1];
      PrefixNoDuplicates(locs, |locs| - 1);
      BumpedCounts(usage, init);
      assert forall l :: l in locs <==> l in init || l == last;
      assert last !in init;
    }
  }

  /** The zones `s.zone .. s.zone + k - 1` of `s`'s (row, shelf, level) all hold `it`. */
  ghost predicate HostsRun(items: map<Location, Item>, d: Dims, s: Location, k: nat, it: Item) {
    InBounds(s, d) && s.zone + k <= d.zones &&
    forall z :: s.zone <= z < s.zone + k ==> At(s, z) in items && items[At(s, z)] == it
  }

  /**
   * The placement invariants of one occupied cell: it is inside the grid; a
   * Fragile item with a level cap sits at or below it; an Oversized item's
   * cell lies in a run of exactly `required_zones` contiguous cells that all
   * hold that same item.
   */
  ghost predicate CellConsistent(items: map<Location, Item>, d: Dims, l: Location)
    requires l in items
  {
    var it := items[l];
    InBounds(l, d) &&
    (it.quality == Fragile && it.maxLevel.Some? ==> l.level <= it.maxLevel.value) &&
    (it.quality == Oversized ==>
       it.requiredZones.Some? && it.requiredZones.value > 0 &&
       exists s: Location :: At(s, l.zone) == l &&
                   s.zone <= l.zone < s.zone + it.requiredZones.value &&
                   HostsRun(items, d, s, it.requiredZones.value, it))
  }

  ghost predicate Consistent(items: map<Location, Item>, d: Dims) {
    forall l :: l in items ==> CellConsistent(items, d, l)
  }

  /** A cell a successful placement fills meets the placement invariants. */
  lemma NewCellConsistent(items: map<Location, Item>, usage: map<Location, nat>, d: Dims,
                          item: Item, locs: seq<Location>, i: nat)
    requires AllocationOutcome(items, usage, d, item, Ok(locs)) && i < |locs|
    ensures locs[i] in Placed(items, locs, item) && CellConsistent(Placed(items, locs, item), d, locs[i])
  {
    AllocationRespectsConstraints(items, usage, d, item, locs);
    PlacedCells(items, locs, item);
    var after := Placed(items, locs, item);
    assert locs[i] in locs;
    if item.quality == Oversized {
      var k := item.requiredZones.value;
      var s := locs[0];
      assert locs == Run(s, k);
      assert locs[i] == At(s, s.zone + i);
      forall z | s.zone <= z < s.zone + k ensures At(s, z) in after && after[At(s, z)] == item {
        assert At(s, z) == locs[z - s.zone];
      }
      assert HostsRun(after, d, s, k, item);
    }
  }

  /** A cell occupied before a placement into free cells still meets the placement invariants. */
  lemma OldCellConsistent(items: map<Location, Item>, d: Dims, item: Item, locs: seq<Location>, l: Location)
    requires Consistent(items, d) && l in items
    requires forall i :: 0 <= i < |locs| ==> locs[i] !in items
    ensures l in Placed(items, locs, item) && CellConsistent(Placed(items, locs, item), d, l)
  {
    PlacedCells(items, locs, item);
    var after := Placed(items, locs, item);
    var it := items[l];
    assert l !in locs;
    assert CellConsistent(items, d, l);
    if it.quality == Oversized {
      var k := it.requiredZones.value;
      var s: Location :| At(s, l.zone) == l && s.zone <= l.zone < s.zone + k && HostsRun(items, d, s, k, it);
      forall z | s.zone <= z < s.zone + k ensures At(s, z) in after && after[At(s, z)] == it {
        assert At(s, z) in items;
        assert At(s, z) !in locs;
      }
      assert HostsRun(after, d, s, k, it);
    }
  }

  /** A successful placement keeps every placement invariant. */
  lemma ConsistentAfterPlacement(items: map<Location, Item>, usage: map<Location, nat>, d: Dims,
                                 item: Item, locs: seq<Location>)
    requires Consistent(items, d)
    requires AllocationOutcome(items, usage, d, item, Ok(locs))
    ensures Consistent(Placed(items, locs, item), d)
  {
    AllocationRespectsConstraints(items, usage, d, item, locs);
    PlacedCells(items, locs, item);
    var after := Placed(items, locs, item);
    forall l | l in after ensures CellConsistent(after, d, l) {
      if l in locs {
        var i :| 0 <= i < |locs| && locs[i] == l;
        NewCellConsistent(items, usage, d, item, locs, i);
      } else {
        OldCellConsistent(items, d, item, locs, l);
      }
    }
  }

  /**
   * The cells `remove_item` empties: every cell holding an item with the
   * occupant's key when the occupant is Oversized (whatever those items'
   * quality), otherwise the given cell only.
   */
  ghost function RemovalSet(items: map<Location, Item>, location: Location): set<Location>
    requires location in items
  {
    if items[location].quality == Oversized then CellsOf(items, KeyOf(items[location]))
    else {location}
  }

  /** Removing an Oversized item's cells takes its whole run of cells with it. */
  lemma RemovalTakesWholeRun(items: map<Location, Item>, d: Dims, location: Location)
    requires Consistent(items, d) && location in items && items[location].quality == Oversized
    ensures exists s :: HostsRun(items, d, s, items[location].requiredZones.value, items[location]) &&
              s.zone <= location.zone < s.zone + items[location].requiredZones.value &&
              forall z :: s.zone <= z < s.zone + items[location].requiredZones.value ==>
                At(s, z) in RemovalSet(items, location)
  {
    assert CellConsistent(items, d, location);
  }

  /** Removal keeps every placement invariant. */
  lemma ConsistentAfterRemoval(items: map<Location, Item>, d: Dims, location: Location)
    requires Consistent(items, d) && location in items
    ensures Consistent(items - RemovalSet(items, location), d)
  {
    var gone := RemovalSet(items, location);
    var after := items - gone;
    forall l | l in after ensures CellConsistent(after, d, l) {
      var it := items[l];
      assert CellConsistent(items, d, l);
      if it.quality == Oversized {
        var k := it.requiredZones.value;
        var s: Location :| At(s, l.zone) == l && s.zone <= l.zone < s.zone + k &&
                 HostsRun(items, d, s, k, it);
        forall z | s.zone <= z < s.zone + k ensures At(s, z) in after && after[At(s, z)] == it {
          assert items[At(s, z)] == it;
        }
        assert HostsRun(after, d, s, k, it);
      }
    }
  }

  datatype ExpiryStatus = Expired | ExpiresIn(days: nat)

  /** A group reported by the expiry scan, with its status. */
  datatype Expiring = Expiring(item: Item, status: ExpiryStatus, locations: seq<Location>)

  /**
   * The expiry rule for a group's item: only a dated Fragile item is
   * reported: Expired before the reference day, or expiring in 0 to 3 days.
   */
  function Classify(it: Item, reference: int): (s: Option<ExpiryStatus>)
    ensures s.Some? <==> it.quality == Fragile && it.expiry.Some? && it.expiry.value - reference <= 3
    ensures s == Some(Expired) <==> it.quality == Fragile && it.expiry.Some? && it.expiry.value < reference
    ensures s.Some? && s.value.ExpiresIn? ==> s.value.days == it.expiry.value - reference <= 3
  {
    if it.quality == Fragile && it.expiry.Some? then
      if it.expiry.value < reference then Some(Expired)
      else
        var days := it.expiry.value - reference;
        if days <= 3 && days >= 0 then Some(ExpiresIn(days)) else None
    else None
  }

  /** The group filters of `search_locations_by_id` and `find_expiring_items_by_date`. */
  datatype GroupFilter = IdIs(numId: nat) | Classifies(reference: int)

  predicate Keeps(f: GroupFilter, g: Group) {
    match f
    case IdIs(numId) => g.item.numId == numId
    case Classifies(reference) => Classify(g.item, reference).Some?
  }

  /** The groups that `f` keeps, in their order. */
  function Filtered(gs: seq<Group>, f: GroupFilter): seq<Group> {
    if gs == [] then []
    else
      var g := gs[|gs| - 1];
      Filtered(gs[..|gs| - 1], f) + (if Keeps(f, g) then [g] else [])
  }

  /** Every group `Filtered` keeps comes from `gs` and passes the filter. */
  lemma {:induction false} FilteredSound(gs: seq<Group>, f: GroupFilter)
    ensures forall j :: 0 <= j < |Filtered(gs, f)| ==> Filtered(gs, f)[j] in gs && Keeps(f, Filtered(gs, f)[j])
  {
    if gs != [] {
      var init := gs[..|gs| - 1];
      FilteredSound(init, f);
      var r, before := Filtered(gs, f), Filtered(init, f);
      forall j | 0 <= j < |r| ensures r[j] in gs && Keeps(f, r[j]) {
        if j < |before| {
          assert r[j] == before[j];
          var m :| 0 <= m < |init| && init[m] == before[j];
          assert gs[m] == init[m];
        } else {
          assert r[j] == gs[|gs| - 1];
        }
      }
    }
  }

  /** Every group of `gs` that passes the filter is kept. */
  lemma {:induction false} FilteredComplete(gs: seq<Group>, f: GroupFilter)
    ensures forall i :: 0 <= i < |gs| && Keeps(f, gs[i]) ==> gs[i] in Filtered(gs, f)
  {
    if gs != [] {
      var init := gs[..|gs| - 1];
      FilteredComplete(init, f);
      var r, before := Filtered(gs, f), Filtered(init, f);
      forall i | 0 <= i < |gs| && Keeps(f, gs[i]) ensures gs[i] in r {
        if i < |init| {
          assert gs[i] == init[i];
          assert gs[i] in before;
        }
      }
    }
  }

  /** Filtering groups with distinct keys leaves groups with distinct keys. */
  lemma {:induction false} FilteredDistinct(gs: seq<Group>, f: GroupFilter)
    requires DistinctKeys(gs)
    ensures DistinctKeys(Filtered(gs, f))
  {
    if gs != [] {
      var init := gs[..|gs| - 1];
      assert forall i :: 0 <= i < |init| ==> init[i] == gs[i];
      FilteredDistinct(init, f);
      FilteredSound(init, f);
      var r, before := Filtered(gs, f), Filtered(init, f);
      forall j1, j2 | 0 <= j1 < j2 < |r| ensures KeyOf(r[j1].item) != KeyOf(r[j2].item) {
        assert r[j1] == before[j1];
        if j2 == |before| {
          var m :| 0 <= m < |init| && init[m] == r[j1];
          assert KeyOf(gs[m].item) != KeyOf(gs[|gs| - 1].item);
        } else {
          assert r[j2] == before[j2];
        }
      }
    }
  }

  /** Over a grouping, `Filtered` is real groups that pass the filter, each key once. */
  lemma FilteredOfGrouping(items: map<Location, Item>, gs: seq<Group>, f: GroupFilter)
    requires IsGrouping(items, gs)
    ensures forall i :: 0 <= i < |Filtered(gs, f)| ==>
              IsGroupOf(items, Filtered(gs, f)[i]) && Keeps(f, Filtered(gs, f)[i])
    ensures DistinctKeys(Filtered(gs, f))
  {
    var r := Filtered(gs, f);
    FilteredSound(gs, f);
    FilteredDistinct(gs, f);
    forall i | 0 <= i < |r| ensures IsGroupOf(items, r[i]) {
      var m :| 0 <= m < |gs| && gs[m] == r[i];
    }
  }

  /** A cell whose group passes the filter lies in a kept group. */
  lemma FilteredCovers(items: map<Location, Item>, gs: seq<Group>, f: GroupFilter, l: Location, m: nat)
    requires IsGrouping(items, gs) && l in items
    requires m < |gs| && KeyOf(gs[m].item) == KeyOf(items[l]) && Keeps(f, gs[m])
    ensures exists i :: 0 <= i < |Filtered(gs, f)| && l in Filtered(gs, f)[i].locations
  {
    var r := Filtered(gs, f);
    FilteredComplete(gs, f);
    assert IsGroupOf(items, gs[m]);
    assert gs[m] in r;
    var i :| 0 <= i < |r| && r[i] == gs[m];
  }

  /** Over a grouping, filtering by id yields every group of the id, each once. */
  lemma WithIdOfGrouping(items: map<Location, Item>, gs: seq<Group>, numId: nat)
    requires IsGrouping(items, gs)
    ensures forall i :: 0 <= i < |Filtered(gs, IdIs(numId))| ==>
              IsGroupOf(items, Filtered(gs, IdIs(numId))[i]) && Filtered(gs, IdIs(numId))[i].item.numId == numId
    ensures DistinctKeys(Filtered(gs, IdIs(numId)))
    ensures forall l :: l in items && items[l].numId == numId ==>
              exists i :: 0 <= i < |Filtered(gs, IdIs(numId))| && l in Filtered(gs, IdIs(numId))[i].locations
  {
    FilteredOfGrouping(items, gs, IdIs(numId));
    forall l | l in items && items[l].numId == numId
      ensures exists i :: 0 <= i < |Filtered(gs, IdIs(numId))| && l in Filtered(gs, IdIs(numId))[i].locations
    {
      var m :| 0 <= m < |gs| && KeyOf(gs[m].item) == KeyOf(items[l]);
      FilteredCovers(items, gs, IdIs(numId), l, m);
    }
  }

  /** The report of `find_expiring_items_by_date`: the classified groups, in their order. */
  function ExpiringOf(gs: seq<Group>, reference: int): seq<Expiring> {
    if gs == [] then []
    else
      var g := gs[|gs| - 1];
      var status := Classify(g.item, reference);
      ExpiringOf(gs[..|gs| - 1], reference) +
      (if status.Some? then [Expiring(g.item, status.value, g.locations)] else [])
  }

  /** The report is the classified groups, each with its status. */
  lemma {:induction false} ExpiringIsReport(gs: seq<Group>, reference: int)
    ensures |ExpiringOf(gs, reference)| == |Filtered(gs, Classifies(reference))|
    ensures forall j :: 0 <= j < |ExpiringOf(gs, reference)| ==>
              var g := Filtered(gs, Classifies(reference))[j];
              Classify(g.item, reference).Some? &&
              ExpiringOf(gs, reference)[j] == Expiring(g.item, Classify(g.item, reference).value, g.locations)
  {
    FilteredSound(gs, Classifies(reference));
    if gs != [] {
      ExpiringIsReport(gs[..|gs| - 1], reference);
    }
  }

  /** Over a grouping, the report lists every group whose item classifies, each once, with its status. */
  lemma ExpiringOfGrouping(items: map<Location, Item>, gs: seq<Group>, reference: int)
    requires IsGrouping(items, gs)
    ensures forall i :: 0 <= i < |ExpiringOf(gs, reference)| ==>
              var e := ExpiringOf(gs, reference)[i];
              IsGroupOf(items, Group(e.item, e.locations)) && Classify(e.item, reference) == Some(e.status)
    ensures forall i, j :: 0 <= i < j < |ExpiringOf(gs, reference)| ==>
              KeyOf(ExpiringOf(gs, reference)[i].item) != KeyOf(ExpiringOf(gs, reference)[j].item)
    ensures forall l :: (l in items && Classify(Representative(items, KeyOf(items[l])), reference).Some?) ==>
              exists i :: 0 <= i < |ExpiringOf(gs, reference)| && l in ExpiringOf(gs, reference)[i].locations
  {
    var r := ExpiringOf(gs, reference);
    var kept := Filtered(gs, Classifies(reference));
    ExpiringIsReport(gs, reference);
    FilteredOfGrouping(items, gs, Classifies(reference));
    forall i | 0 <= i < |r|
      ensures IsGroupOf(items, Group(r[i].item, r[i].locations)) && Classify(r[i].item, reference) == Some(r[i].status)
    {
      assert Group(r[i].item, r[i].locations) == kept[i];
    }
    forall i, j | 0 <= i < j < |r| ensures KeyOf(r[i].item) != KeyOf(r[j].item) {
      assert r[i].item == kept[i].item && r[j].item == kept[j].item;
    }
    ExpiringCovers(items, gs, reference);
  }

  /** Every cell whose representative classifies lies in some reported group. */
  lemma ExpiringCovers(items: map<Location, Item>, gs: seq<Group>, reference: int)
    requires IsGrouping(items, gs)
    ensures forall l :: (l in items && Classify(Representative(items, KeyOf(items[l])), reference).Some?) ==>
              exists i :: 0 <= i < |ExpiringOf(gs, reference)| && l in ExpiringOf(gs, reference)[i].locations
  {
    var r := ExpiringOf(gs, reference);
    var kept := Filtered(gs, Classifies(reference));
    ExpiringIsReport(gs, reference);
    forall l | l in items && Classify(Representative(items, KeyOf(items[l])), reference).Some?
      ensures exists i :: 0 <= i < |r| && l in r[i].locations
    {
      var m :| 0 <= m < |gs| && KeyOf(gs[m].item) == KeyOf(items[l]);
      assert IsGroupOf(items, gs[m]);
      GroupItemIsRepresentative(items, gs[m]);
      FilteredCovers(items, gs, Classifies(reference), l, m);
      var i :| 0 <= i < |kept| && l in kept[i].locations;
      assert r[i].locations == kept[i].locations;
    }
  }

  /** The summing loop of `search_by_id` and `search_by_name`, over the groups. */
  method SumSelected(groups: seq<Group>, sel: Selector) returns (total: nat)
    ensures total == SelectedQuantity(groups, sel)
  {
    total := 0;
    for i := 0 to |groups|
      invariant total == SelectedQuantity(groups[..i], sel)
    {
      assert groups[..i + 1][..i] == groups[..i];
      if Selects(sel, KeyOf(groups[i].item)) {
        total := total + groups[i].item.quantity;
      }
    }
    assert groups[..|groups|] == groups;
  }

  /** The filtering loop of `search_locations_by_id`. */
  method FilterGroups(groups: seq<Group>, f: GroupFilter) returns (result: seq<Group>)
    ensures result == Filtered(groups, f)
  {
    result := [];
    for i := 0 to |groups|
      invariant result == Filtered(groups[..i], f)
    {
      assert groups[..i + 1][..i] == groups[..i];
      if Keeps(f, groups[i]) {
        result := result + [groups[i]];
      }
    }
    assert groups[..|groups|] == groups;
  }

  /** The classifying loop of `find_expiring_items_by_date`. */
  method CollectExpiring(groups: seq<Group>, reference: int) returns (result: seq<Expiring>)
    ensures result == ExpiringOf(groups, reference)
  {
    result := [];
    for i := 0 to |groups|
      invariant result == ExpiringOf(groups[..i], reference)
    {
      assert groups[..i + 1][..i] == groups[..i];
      var g := groups[i];
      var status := Classify(g.item, reference);
      if status.Some? {
        result := result + [Expiring(g.item, status.value, g.locations)];
      }
    }
    assert groups[..|groups|] == groups;
  }

  /** The buckets of `grouped_items`: for each key, the cells holding an item with that key. */
  ghost predicate IsBucketing(occupied: map<Location, Item>, buckets: map<Key, seq<Location>>) {
    (forall k :: k in buckets ==> |buckets[k]| > 0 && NoDuplicates(buckets[k])) &&
    (forall k :: k in buckets ==>
       forall l :: l in buckets[k] ==> l in occupied && KeyOf(occupied[l]) == k) &&
    (forall l :: l in occupied ==> KeyOf(occupied[l]) in buckets && l in buckets[KeyOf(occupied[l])])
  }

  /** First pass of `grouped_items`: visit the cells in the map's (arbitrary) order, appending each to its key's bucket. */
  method BucketByKey(occupied: map<Location, Item>) returns (buckets: map<Key, seq<Location>>)
    ensures IsBucketing(occupied, buckets)
  {
    buckets := map[];
    var rest := occupied.Keys;
    while rest != {}
      invariant rest <= occupied.Keys
      invariant forall k :: k in buckets ==> |buckets[k]| > 0 && NoDuplicates(buckets[k])
      invariant forall k :: k in buckets ==>
                  forall l :: l in buckets[k] ==> l in occupied && l !in rest && KeyOf(occupied[l]) == k
      invariant forall l :: l in occupied && l !in rest ==>
                  KeyOf(occupied[l]) in buckets && l in buckets[KeyOf(occupied[l])]
      decreases rest
    {
      var l :| l in rest;
      var k := KeyOf(occupied[l]);
      var bucket := if k in buckets then buckets[k] else [];
      buckets := buckets[k := bucket + [l]];
      rest := rest - {l};
    }
  }

  /** A bucket, sorted, is the group of its key. */
  lemma SortedBucketIsGroup(occupied: map<Location, Item>, bucket: seq<Location>, k: Key)
    requires |bucket| > 0 && NoDuplicates(bucket)
    requires forall l :: l in bucket <==> l in occupied && KeyOf(occupied[l]) == k
    ensures |SortLocations(bucket)| > 0 && SortLocations(bucket)[0] in occupied
    ensures KeyOf(occupied[SortLocations(bucket)[0]]) == k
    ensures IsGroupOf(occupied, Group(occupied[SortLocations(bucket)[0]], SortLocations(bucket)))
  {
    var sorted := SortLocations(bucket);
    forall l ensures l in sorted <==> l in bucket {
      assert l in sorted <==> l in multiset(sorted);
      assert l in bucket <==> l in multiset(bucket);
    }
    assert bucket[0] in sorted;
    assert sorted[0] in sorted;
  }

  /** What `EmitGroups` knows after emitting the buckets of all keys outside `pending`. */
  ghost predicate Emitted(occupied: map<Location, Item>, buckets: map<Key, seq<Location>>, pending: set<Key>,
                          groups: seq<Group>, position: map<Key, nat>) {
    pending <= buckets.Keys &&
    (forall i :: 0 <= i < |groups| ==>
       IsGroupOf(occupied, groups[i]) && KeyOf(groups[i].item) in buckets && KeyOf(groups[i].item) !in pending) &&
    DistinctKeys(groups) &&
    (forall k :: k in buckets && k !in pending ==>
       k in position && position[k] < |groups| && KeyOf(groups[position[k]].item) == k)
  }

  /** Emitting the group of a pending key keeps `Emitted`. */
  lemma EmitAdvance(occupied: map<Location, Item>, buckets: map<Key, seq<Location>>, pending: set<Key>,
                    groups: seq<Group>, position: map<Key, nat>, k: Key, g: Group)
    requires Emitted(occupied, buckets, pending, groups, position)
    requires k in pending && IsGroupOf(occupied, g) && KeyOf(g.item) == k
    ensures Emitted(occupied, buckets, pending - {k}, groups + [g], position[k := |groups|])
  {
    var groups', pending', position' := groups + [g], pending - {k}, position[k := |groups|];
    forall i | 0 <= i < |groups'|
      ensures IsGroupOf(occupied, groups'[i]) && KeyOf(groups'[i].item) in buckets && KeyOf(groups'[i].item) !in pending'
    {
      if i < |groups| {
        assert groups'[i] == groups[i];
      }
    }
    forall i, j | 0 <= i < j < |groups'| ensures KeyOf(groups'[i].item) != KeyOf(groups'[j].item) {
      assert groups'[i] == groups[i];
      if j < |groups| {
        assert groups'[j] == groups[j];
      }
    }
    forall k' | k' in buckets && k' !in pending'
      ensures k' in position' && position'[k'] < |groups'| && KeyOf(groups'[position'[k']].item) == k'
    {
      if k' != k {
        assert groups'[position[k']] == groups[position[k']];
      }
    }
  }

  /** Once no key is pending, the emitted groups form a grouping. */
  lemma EmitDone(occupied: map<Location, Item>, buckets: map<Key, seq<Location>>,
                 groups: seq<Group>, position: map<Key, nat>)
    requires IsBucketing(occupied, buckets)
    requires Emitted(occupied, buckets, {}, groups, position)
    ensures IsGrouping(occupied, groups)
  {
    forall l | l in occupied ensures KeyOf(occupied[l]) in GroupKeys(groups) {
      var k := KeyOf(occupied[l]);
      assert KeyOf(groups[position[k]].item) == k;
    }
  }

  /** Second pass of `grouped_items`: one group per bucket, in the map's (arbitrary) order. */
  method EmitGroups(occupied: map<Location, Item>, buckets: map<Key, seq<Location>>) returns (groups: seq<Group>)
    requires IsBucketing(occupied, buckets)
    ensures IsGrouping(occupied, groups)
  {
    groups := [];
    var pending := buckets.Keys;
    ghost var position: map<Key, nat> := map[];
    while pending != {}
      invariant Emitted(occupied, buckets, pending, groups, position)
      decreases pending
    {
      var k :| k in pending;
      var sorted := SortLocations(buckets[k]);
      SortedBucketIsGroup(occupied, buckets[k], k);
      var g := Group(occupied[sorted[0]], sorted);
      EmitAdvance(occupied, buckets, pending, groups, position, k, g);
      position := position[k := |groups|];
      groups := groups + [g];
      pending := pending - {k};
    }
    EmitDone(occupied, buckets, groups, position);
  }

  /** The cells holding an item with key `key`, collected in the map's (arbitrary) order, each once. */
  method CollectCellsOf(items: map<Location, Item>, key: Key) returns (cells: seq<Location>)
    ensures NoDuplicates(cells)
    ensures forall l :: l in cells <==> l in CellsOf(items, key)
  {
    cells := [];
    var rest := items.Keys;
    while rest != {}
      invariant rest <= items.Keys
      invariant NoDuplicates(cells)
      invariant forall l :: l in cells <==> l in items && l !in rest && KeyOf(items[l]) == key
      decreases rest
    {
      var l :| l in rest;
      if KeyOf(items[l]) == key {
        cells := cells + [l];
      }
      rest := rest - {l};
    }
  }

  /** Writing the next cell of `locs` extends the placement by that cell. */
  lemma PlacedStep(items0: map<Location, Item>, locs: seq<Location>, item: Item, i: nat,
                   items: map<Location, Item>, items': map<Location, Item>)
    requires i < |locs|
    requires items == Placed(items0, locs[..i], item) && items' == items[locs[i] := item]
    ensures items' == Placed(items0, locs[..i + 1], item)
  {
    assert locs[..i + 1][..i] == locs[..i];
  }

  /** A prefix of a duplicate-free list is duplicate-free. */
  lemma PrefixNoDuplicates(locs: seq<Location>, n: nat)
    requires NoDuplicates(locs) && n <= |locs|
    ensures NoDuplicates(locs[..n])
  {
    forall a, b | 0 <= a < b < n ensures locs[..n][a] != locs[..n][b] {
      assert locs[..n][a] == locs[a] && locs[..n][b] == locs[b];
    }
  }

  /** Counting the next cell of `locs` extends the usage counts by that cell. */
  lemma BumpedStep(usage0: map<Location, nat>, locs: seq<Location>, i: nat,
                   usage: map<Location, nat>, usage': map<Location, nat>)
    requires i < |locs| && usage == Bumped(usage0, locs[..i])
    requires usage' == usage[locs[i] := UsageAt(usage, locs[i]) + 1]
    ensures usage' == Bumped(usage0, locs[..i + 1])
  {
    assert locs[..i + 1][..i] == locs[..i];
  }

  /** The cells among the first `i` of `s`. */
  ghost function Taken(s: seq<Location>, i: nat): set<Location>
    requires i <= |s|
  {
    set j | 0 <= j < i :: s[j]
  }

  /** Removing the next cell of a duplicate-free list of occupied cells removes one more occupied cell. */
  lemma TakeOneMore(base: map<Location, Item>, s: seq<Location>, i: nat)
    requires NoDuplicates(s) && i < |s| && s[i] in base
    ensures s[i] in base - Taken(s, i) && (base - Taken(s, i))[s[i]] == base[s[i]]
    ensures (base - Taken(s, i)) - {s[i]} == base - Taken(s, i + 1)
  {
    assert Taken(s, i + 1) == Taken(s, i) + {s[i]};
  }

  /** Taking every cell of `s` takes exactly the cells of `s`. */
  lemma TakenAll(s: seq<Location>)
    ensures forall l :: l in Taken(s, |s|) <==> l in s
  {
  }

  class Warehouse {
    var items: map<Location, Item>
    const maxDimensions: Dims
    var usageCount: map<Location, nat>
    /** The round-robin cursor; the source's allocator uses it but its struct lacks it. */
    var lastAllocation: Option<Location>

    ghost predicate Valid()
      reads this
    {
      Consistent(items, maxDimensions)
    }

    constructor (maxDimensions: Dims)
      ensures Valid()
      ensures this.maxDimensions == maxDimensions
      ensures items == map[] && usageCount == map[] && lastAllocation == None
    {
      this.maxDimensions := maxDimensions;
      items := map[];
      usageCount := map[];
      lastAllocation := None;
    }

    /**
     * The usage-balanced scan over every cell for single-cell items: the
     * eligible cell of least usage, the first in row-major order among equals.
     */
    method BestFreeCell(cap: Option<int>) returns (found: Option<Location>)
      ensures found.Some? ==> IsBestCell(items, usageCount, maxDimensions, cap, found.value)
      ensures found.None? ==> NoEligibleCell(items, maxDimensions, cap)
    {
      var d := maxDimensions;
      found := None;
      if !NonEmpty(d) {
        return;
      }
      var best: nat := 0;
      var cur := Location(0, 0, 0, 0);
      while cur.row < d.rows
        invariant Cursor(cur, d)
        invariant found.Some? ==> Eligible(items, d, cap, found.value) && Lt(found.value, cur) &&
                                  best == UsageAt(usageCount, found.value)
        invariant forall m :: Eligible(items, d, cap, m) && Lt(m, cur) ==>
                    found.Some? &&
                    (m == found.value || Better(best, found.value, UsageAt(usageCount, m), m))
        decreases d.rows - cur.row, d.shelves - cur.shelf, d.levels - cur.level, d.zones - cur.zone
      {
        if cur !in items && LevelAllowed(cap, cur) {
          var usage := UsageAt(usageCount, cur);
          if found.None? || usage < best {
            found, best := Some(cur), usage;
          }
        }
        StepCovers(cur, d);
        cur := Step(cur, d);
      }
      forall m | Eligible(items, d, cap, m) ensures Lt(m, cur) {
        CursorDone(cur, d, m);
      }
    }

    /** The source's inner zone loop: are the `k` cells from `s` free, and their summed usage. */
    method ScanRun(s: Location, k: nat) returns (allFree: bool, sumUsage: nat)
      ensures allFree == RunFree(items, s, k)
      ensures allFree ==> sumUsage == RunUsage(usageCount, s, k)
    {
      allFree, sumUsage := true, 0;
      var z := s.zone;
      while z < s.zone + k
        invariant s.zone <= z <= s.zone + k
        invariant RunFree(items, s, z - s.zone)
        invariant sumUsage == RunUsage(usageCount, s, z - s.zone)
      {
        if At(s, z) in items {
          allFree := false;
          return;
        }
        sumUsage := sumUsage + UsageAt(usageCount, At(s, z));
        z := z + 1;
      }
    }

    /** The usage-balanced scan over every start cell for a run of `k` free zones. */
    method BestFreeRun(k: nat) returns (found: Option<Location>)
      requires k > 0
      ensures found.Some? ==> IsBestRun(items, usageCount, maxDimensions, k, found.value)
      ensures found.None? ==> NoRun(items, maxDimensions, k)
    {
      var d := maxDimensions;
      found := None;
      if !NonEmpty(d) {
        return;
      }
      var best: nat := 0;
      var cur := Location(0, 0, 0, 0);
      while cur.row < d.rows
        invariant Cursor(cur, d)
        invariant found.Some? ==> ValidStart(items, d, found.value, k) && Lt(found.value, cur) &&
                                  best == RunUsage(usageCount, found.value, k)
        invariant forall t :: ValidStart(items, d, t, k) && Lt(t, cur) ==>
                    found.Some? &&
                    (t == found.value || Better(best, found.value, RunUsage(usageCount, t, k), t))
        decreases d.rows - cur.row, d.shelves - cur.shelf, d.levels - cur.level, d.zones - cur.zone
      {
        if cur.zone + k <= d.zones {
          var allFree, sumUsage := ScanRun(cur, k);
          if allFree && (found.None? || sumUsage < best) {
            found, best := Some(cur), sumUsage;
          }
        }
        StepCovers(cur, d);
        cur := Step(cur, d);
      }
      forall t | ValidStart(items, d, t, k) ensures Lt(t, cur) {
        CursorDone(cur, d, t);
      }
    }

    /** `find_allocation_spot`: the usage-balanced best-fit allocator. */
    method FindAllocationSpot(item: Item) returns (r: Result<seq<Location>, Error>)
      ensures AllocationOutcome(items, usageCount, maxDimensions, item, r)
    {
      match item.quality
      case Normal =>
        var found := BestFreeCell(None);
        r := if found.Some? then Ok([found.value]) else Err(NoCapacity);
      case Fragile =>
        var found := BestFreeCell(Some(FragileCap(item, maxDimensions)));
        r := if found.Some? then Ok([found.value]) else Err(NoCapacity);
      case Oversized =>
        if item.requiredZones.None? {
          return Err(InvalidConstraint);
        }
        var k := item.requiredZones.value;
        if k == 0 {
          return Err(InvalidConstraint);
        }
        var found := BestFreeRun(k);
        r := if found.Some? then Ok(Run(found.value, k)) else Err(NoCapacity);
    }

    /**
     * `add_item`: allocate, re-check the quality constraint, then write the
     * item into every allocated cell and count one more use of each. On any
     * error nothing changes. The re-check cannot fail.
     */
    method AddItem(item: Item) returns (r: Result<seq<Location>, Error>)
      requires Valid()
      modifies this
      ensures Valid()
      ensures AllocationOutcome(old(items), old(usageCount), maxDimensions, item, r)
      ensures r.Ok? ==> items == Placed(old(items), r.value, item)
      ensures r.Ok? ==> NoDuplicates(r.value) && usageCount == Bumped(old(usageCount), r.value)
      ensures r.Err? ==> items == old(items) && usageCount == old(usageCount)
      ensures lastAllocation == old(lastAllocation)
    {
      r := FindAllocationSpot(item);
      if r.Err? {
        return;
      }
      var locs := r.value;
      AllocationRespectsConstraints(items, usageCount, maxDimensions, item, locs);
      match item.quality {
        case Fragile =>
          if item.maxLevel.Some? {
            for i := 0 to |locs| {
              if locs[i].level > item.maxLevel.value {
                assert false;  // the allocator never exceeds the cap
              }
            }
          }
        case Oversized =>
          if item.requiredZones.Some? && |locs| != item.requiredZones.value {
            assert false;  // the allocator returns exactly `required_zones` cells
          }
        case Normal =>
      }

      ConsistentAfterPlacement(items, usageCount, maxDimensions, item, locs);
      Commit(item, locs);
    }

    /** The write loop of `add_item`: store the item in each cell and count one more use. */
    method Commit(item: Item, locs: seq<Location>)
      modifies this
      ensures items == Placed(old(items), locs, item)
      ensures usageCount == Bumped(old(usageCount), locs)
      ensures lastAllocation == old(lastAllocation)
    {
      ghost var items0, usage0 := items, usageCount;
      for i := 0 to |locs|
        invariant items == Placed(items0, locs[..i], item)
        invariant usageCount == Bumped(usage0, locs[..i])
        invariant lastAllocation == old(lastAllocation)
      {
        ghost var before, usageBefore := items, usageCount;
        items := items[locs[i] := item];
        var count := UsageAt(usageCount, locs[i]);
        usageCount := usageCount[locs[i] := count + 1];
        PlacedStep(items0, locs, item, i, before, items);
        BumpedStep(usage0, locs, i, usageBefore, usageCount);
      }
      assert locs[..|locs|] == locs;
    }

    /**
     * `remove_item`: empty the given cell, or every cell of an Oversized
     * occupant's logical item, and return the removed items. Usage counts
     * are kept. `removedFrom` names the cell each returned item came from.
     */
    method RemoveItem(location: Location) returns (r: Result<seq<Item>, Error>, ghost removedFrom: seq<Location>)
      requires Valid()
      modifies this
      ensures Valid()
      ensures usageCount == old(usageCount) && lastAllocation == old(lastAllocation)
      ensures location !in old(items) ==> r == Err(NotFound) && items == old(items)
      ensures location in old(items) ==>
                r.Ok? && items == old(items) - RemovalSet(old(items), location) &&
                NoDuplicates(removedFrom) &&
                (forall l :: l in removedFrom <==> l in RemovalSet(old(items), location)) &&
                |r.value| == |removedFrom| &&
                forall i :: 0 <= i < |removedFrom| ==>
                  removedFrom[i] in old(items) && r.value[i] == old(items)[removedFrom[i]]
    {
      removedFrom := [];
      if location !in items {
        return Err(NotFound), removedFrom;
      }
      var key := KeyOf(items[location]);
      var toRemove: seq<Location> := [];
      if items[location].quality == Oversized {
        toRemove := CollectCellsOf(items, key);
      } else {
        toRemove := [location];
      }
      assert forall l :: l in toRemove <==> l in RemovalSet(items, location);
      assert forall l :: l in toRemove ==> l in items;
      ConsistentAfterRemoval(items, maxDimensions, location);
      var removed: seq<Item> := [];
      for i := 0 to |toRemove|
        invariant items == old(items) - Taken(toRemove, i)
        invariant |removed| == i
        invariant forall j :: 0 <= j < i ==> removed[j] == old(items)[toRemove[j]]
        invariant usageCount == old(usageCount) && lastAllocation == old(lastAllocation)
      {
        var l := toRemove[i];
        assert l in toRemove;
        TakeOneMore(old(items), toRemove, i);
        if l in items {
          removed := removed + [items[l]];
          items := items - {l};
        }
      }
      TakenAll(toRemove);
      assert Taken(toRemove, |toRemove|) == RemovalSet(old(items), location);
      r, removedFrom := Ok(removed), toRemove;
    }

    /**
     * `grouped_items`: bucket the occupied cells by key, then emit each
     * bucket's cells sorted, with the item at the least cell. The order of
     * the groups is not specified.
     */
    method GroupedItems() returns (groups: seq<Group>)
      ensures IsGrouping(items, groups)
    {
      var buckets := BucketByKey(items);
      groups := EmitGroups(items, buckets);
    }

    /** `search_by_id`: total quantity of the logical items with this id, once per group. */
    method SearchById(numId: nat) returns (found: bool, total: nat)
      ensures total == QuantitySum(items, KeysWith(items, ById(numId)))
      ensures found == (total > 0)
    {
      var groups := GroupedItems();
      total := SumSelected(groups, ById(numId));
      GroupingSummary(items, groups);
      GroupingQuantity(items, groups, ById(numId));
      found := total > 0;
    }

    /** `search_by_name`: total quantity of the logical items with this name, once per group. */
    method SearchByName(name: string) returns (found: bool, total: nat)
      ensures total == QuantitySum(items, KeysWith(items, ByName(name)))
      ensures found == (total > 0)
    {
      var groups := GroupedItems();
      total := SumSelected(groups, ByName(name));
      GroupingSummary(items, groups);
      GroupingQuantity(items, groups, ByName(name));
      found := total > 0;
    }

    /** `search_locations_by_id`: exactly the groups whose item has this id. */
    method SearchLocationsById(numId: nat) returns (result: seq<Group>)
      ensures forall i :: 0 <= i < |result| ==> IsGroupOf(items, result[i]) && result[i].item.numId == numId
      ensures forall i, j :: 0 <= i < j < |result| ==> KeyOf(result[i].item) != KeyOf(result[j].item)
      ensures forall l :: l in items && items[l].numId == numId ==>
                exists i :: 0 <= i < |result| && l in result[i].locations
    {
      var groups := GroupedItems();
      result := FilterGroups(groups, IdIs(numId));
      WithIdOfGrouping(items, groups, numId);
    }

    /**
     * `find_expiring_items_by_date`: the groups whose item is a dated Fragile
     * item, with their expiry status; groups outside the window are omitted.
     */
    method FindExpiringItemsByDate(reference: int) returns (result: seq<Expiring>)
      ensures forall i :: 0 <= i < |result| ==>
                IsGroupOf(items, Group(result[i].item, result[i].locations)) &&
                Classify(result[i].item, reference) == Some(result[i].status)
      ensures forall i, j :: 0 <= i < j < |result| ==> KeyOf(result[i].item) != KeyOf(result[j].item)
      ensures forall l :: (l in items && Classify(Representative(items, KeyOf(items[l])), reference).Some?) ==>
                exists i :: 0 <= i < |result| && l in result[i].locations
    {
      var groups := GroupedItems();
      result := CollectExpiring(groups, reference);
      ExpiringOfGrouping(items, groups, reference);
    }
  }
}
