/**
 * The alternative allocators of the warehouse: a first-free scan in
 * row-major order, and a round-robin sweep that resumes after the last
 * allocated cell. Neither writes an item; the sweep only moves its cursor.
 */
module AllocationStrategies {
  import opened Common
  import opened Locations
  import opened Items
  import opened Grid
  import opened Warehouse

  /** Outcome of a first-free single-cell request. */
  ghost predicate FirstCellOutcome(items: map<Location, Item>, d: Dims, cap: Option<int>,
                                   r: Result<seq<Location>, Error>) {
    match r
    case Ok(locs) => |locs| == 1 && IsFirstCell(items, d, cap, locs[0])
    case Err(e) => e == NoCapacity && NoEligibleCell(items, d, cap)
  }

  /** Outcome of a first-free run request. */
  ghost predicate FirstRunOutcome(items: map<Location, Item>, d: Dims, k: nat, r: Result<seq<Location>, Error>) {
    match r
    case Ok(locs) => |locs| > 0 && IsFirstRun(items, d, k, locs[0]) && locs == Run(locs[0], k)
    case Err(e) => e == NoCapacity && NoRun(items, d, k)
  }

  /**
   * The level cap of the nearest scan: `nivel_maximo` when set, and no cap
   * otherwise (unlike the best-fit allocator, which defaults to `levels - 1`).
   */
  function NearestCap(item: Item): (cap: Option<int>)
    ensures cap.Some? <==> item.maxLevel.Some?
    ensures cap.Some? ==> cap.value == item.maxLevel.value
  {
    if item.maxLevel.Some? then Some(item.maxLevel.value) else None
  }

  /** What `nearest_allocation` returns, per quality. */
  ghost predicate NearestOutcome(items: map<Location, Item>, d: Dims, item: Item, r: Result<seq<Location>, Error>) {
    match item.quality
    case Normal => FirstCellOutcome(items, d, None, r)
    case Fragile => FirstCellOutcome(items, d, NearestCap(item), r)
    case Oversized =>
      if item.requiredZones.None? then r == Err(InvalidConstraint)
      else if item.requiredZones.value > d.zones || item.requiredZones.value == 0 then r == Err(NoCapacity)
      else FirstRunOutcome(items, d, item.requiredZones.value, r)
  }

  /** The nearest scan determines its answer: there is exactly one allowed outcome. */
  lemma NearestOutcomeUnique(items: map<Location, Item>, d: Dims, item: Item,
                             r1: Result<seq<Location>, Error>, r2: Result<seq<Location>, Error>)
    requires NearestOutcome(items, d, item, r1) && NearestOutcome(items, d, item, r2)
    ensures r1 == r2
  {
    if r1.Ok? && r2.Ok? {
      var a, b := r1.value[0], r2.value[0];
      if a != b {
        LtIsStrictTotalOrder(a, b, a);
      }
      if item.quality != Oversized {
        assert r1.value == [a] && r2.value == [b];
      }
    }
  }

  /**
   * A nearest allocation is free, in-bounds cells: one cell within the cap for
   * Normal and Fragile items, `required_zones` contiguous cells for Oversized.
   */
  lemma NearestRespectsConstraints(items: map<Location, Item>, d: Dims, item: Item, locs: seq<Location>)
    requires NearestOutcome(items, d, item, Ok(locs))
    ensures |locs| > 0 && NoDuplicates(locs)
    ensures forall i :: 0 <= i < |locs| ==> InBounds(locs[i], d) && locs[i] !in items
    ensures item.quality != Oversized ==> |locs| == 1
    ensures item.quality == Fragile && item.maxLevel.Some? ==> locs[0].level <= item.maxLevel.value
    ensures item.quality == Oversized ==>
              item.requiredZones.Some? && |locs| == item.requiredZones.value && Contiguous(locs)
  {
    if item.quality == Oversized {
      RunShape(items, d, locs[0], item.requiredZones.value);
    }
  }

  /** The nested loops of the Normal and Fragile cases: the first eligible cell in row-major order. */
  method FirstFreeCell(items: map<Location, Item>, d: Dims, cap: Option<int>) returns (found: Option<Location>)
    ensures found.Some? ==> IsFirstCell(items, d, cap, found.value)
    ensures found.None? ==> NoEligibleCell(items, d, cap)
  {
    if !NonEmpty(d) {
      return None;
    }
    var cur := Location(0, 0, 0, 0);
    while cur.row < d.rows
      invariant Cursor(cur, d)
      invariant forall m :: Eligible(items, d, cap, m) ==> !Lt(m, cur)
      decreases d.rows - cur.row, d.shelves - cur.shelf, d.levels - cur.level, d.zones - cur.zone
    {
      if cur !in items && LevelAllowed(cap, cur) {
        forall m | Eligible(items, d, cap, m) && m != cur ensures Lt(cur, m) {
          LtIsStrictTotalOrder(m, cur, m);
        }
        return Some(cur);
      }
      StepCovers(cur, d);
      cur := Step(cur, d);
    }
    forall m | Eligible(items, d, cap, m) ensures false {
      CursorDone(cur, d, m);
    }
    return None;
  }

  /**
   * After the first `e` zones of `c`'s (row, shelf, level), `run` is the
   * stretch of free cells ending at zone `e - 1`, as long as it goes: it
   * starts at zone 0 or just after an occupied cell.
   */
  ghost predicate Stretch(items: map<Location, Item>, c: Location, e: nat, run: seq<Location>) {
    |run| <= e && run == Run(At(c, e - |run|), |run|) && RunFree(items, At(c, e - |run|), |run|) &&
    (|run| == e || At(c, e - |run| - 1) in items)
  }

  /** Scanning zone `c.zone` extends the stretch by `c`, or clears it when `c` is occupied. */
  lemma StretchStep(items: map<Location, Item>, c: Location, run: seq<Location>)
    requires Stretch(items, c, c.zone, run)
    ensures Stretch(items, c, c.zone + 1, if c in items then [] else run + [c])
  {
    if c !in items {
      RunExtend(At(c, c.zone - |run|), |run|);
      assert At(At(c, c.zone - |run|), c.zone) == c;
    }
  }

  /** A run grows by its next zone. */
  lemma RunExtend(s: Location, n: nat)
    ensures Run(s, n) + [At(s, s.zone + n)] == Run(s, n + 1)
  {
    var a, b := Run(s, n) + [At(s, s.zone + n)], Run(s, n + 1);
    assert forall i :: 0 <= i < n + 1 ==> a[i] == b[i];
  }

  /** The stretch after scanning `c`: cleared at zone 0 and at an occupied cell, else extended by `c`. */
  function NextStretch(items: map<Location, Item>, c: Location, run: seq<Location>): seq<Location> {
    if c in items then [] else (if c.zone == 0 then [] else run) + [c]
  }

  /**
   * The state of the Oversized scan before cell `cur`: `run` is the current
   * stretch of free zones, shorter than `k`, and no run of `k` free zones
   * ends before `cur`.
   */
  ghost predicate RunScan(items: map<Location, Item>, d: Dims, k: nat, cur: Location, run: seq<Location>) {
    Cursor(cur, d) && (k > 0 ==> |run| < k) && (cur.zone > 0 ==> Stretch(items, cur, cur.zone, run)) &&
    (k > 0 ==> forall t :: ValidStart(items, d, t, k) ==> !Lt(At(t, t.zone + k - 1), cur))
  }

  /** Scanning `cur` leaves the stretch ending at `cur`. */
  lemma NextStretchIsStretch(items: map<Location, Item>, d: Dims, k: nat, cur: Location, run: seq<Location>)
    requires RunScan(items, d, k, cur, run) && cur.row < d.rows
    ensures Stretch(items, cur, cur.zone + 1, NextStretch(items, cur, run))
  {
    var before := if cur.zone == 0 then [] else run;
    StretchStep(items, cur, before);
  }

  /** When the stretch reaches `k` at a free cell, it is the first run of `k` free zones. */
  lemma RunScanFound(items: map<Location, Item>, d: Dims, k: nat, cur: Location, run: seq<Location>)
    requires RunScan(items, d, k, cur, run) && cur.row < d.rows
    requires cur !in items && |NextStretch(items, cur, run)| == k
    ensures k > 0 && IsFirstRun(items, d, k, NextStretch(items, cur, run)[0])
    ensures NextStretch(items, cur, run) == Run(NextStretch(items, cur, run)[0], k)
  {
    var found := NextStretch(items, cur, run);
    NextStretchIsStretch(items, d, k, cur, run);
    var s := At(cur, cur.zone + 1 - k);
    assert found == Run(s, k);
    assert found[0] == At(s, s.zone);
    RunEndsAt(items, d, k, s, cur);
  }

  /** Scanning `cur` without reaching `k` keeps the scan state at the next cell. */
  lemma RunScanAdvance(items: map<Location, Item>, d: Dims, k: nat, cur: Location, run: seq<Location>)
    requires RunScan(items, d, k, cur, run) && cur.row < d.rows
    requires cur in items || |NextStretch(items, cur, run)| != k
    ensures RunScan(items, d, k, Step(cur, d), NextStretch(items, cur, run))
  {
    var next := NextStretch(items, cur, run);
    NextStretchIsStretch(items, d, k, cur, run);
    if k > 0 {
      NoRunBefore(items, d, k, cur, next);
    }
    StretchCarries(items, d, cur, next);
    StepCovers(cur, d);
  }

  /** Past the last cell, no run of `k > 0` free zones exists. */
  lemma RunScanDone(items: map<Location, Item>, d: Dims, k: nat, cur: Location, run: seq<Location>)
    requires RunScan(items, d, k, cur, run) && cur.row >= d.rows
    ensures k == 0 || NoRun(items, d, k)
  {
    if k > 0 {
      forall t | InBounds(t, d) && t.zone + k <= d.zones ensures Lt(At(t, t.zone + k - 1), cur) {
        CursorDone(cur, d, At(t, t.zone + k - 1));
      }
    }
  }

  /**
   * The nested loops of the Oversized case: within each (row, shelf, level)
   * the vector of consecutive free zones is cleared at zone 0 and at every
   * occupied cell; the first time it reaches `k` cells it is the answer.
   * With `k == 0` it never matches, since its length is checked after a push.
   */
  method FirstFreeRun(items: map<Location, Item>, d: Dims, k: nat) returns (found: Option<seq<Location>>)
    ensures found.Some? ==> k > 0 && |found.value| == k && IsFirstRun(items, d, k, found.value[0]) &&
                            found.value == Run(found.value[0], k)
    ensures found.None? ==> k == 0 || NoRun(items, d, k)
  {
    if !NonEmpty(d) {
      return None;
    }
    var cur := Location(0, 0, 0, 0);
    var contiguous: seq<Location> := [];
    while cur.row < d.rows
      invariant RunScan(items, d, k, cur, contiguous)
      decreases d.rows - cur.row, d.shelves - cur.shelf, d.levels - cur.level, d.zones - cur.zone
    {
      ghost var before := contiguous;
      if cur.zone == 0 {
        contiguous := [];
      }
      if cur !in items {
        contiguous := contiguous + [cur];
        if |contiguous| == k {
          RunScanFound(items, d, k, cur, before);
          return Some(contiguous);
        }
      } else {
        contiguous := [];
      }
      RunScanAdvance(items, d, k, cur, before);
      cur := Step(cur, d);
    }
    RunScanDone(items, d, k, cur, contiguous);
    return None;
  }

  /** A run found ending at `c`, when none ends earlier, is the first run. */
  lemma RunEndsAt(items: map<Location, Item>, d: Dims, k: nat, s: Location, c: Location)
    requires k > 0 && InBounds(c, d) && c.zone + 1 >= k && s == At(c, c.zone + 1 - k)
    requires RunFree(items, s, k)
    requires forall t :: ValidStart(items, d, t, k) ==> !Lt(At(t, t.zone + k - 1), c)
    ensures IsFirstRun(items, d, k, s)
  {
    forall t | ValidStart(items, d, t, k) && t != s ensures Lt(s, t) {
      var e := At(t, t.zone + k - 1);
      LtIsStrictTotalOrder(e, c, e);
    }
  }

  /** After the cell `c` is scanned without reaching `k`, no run of `k` free zones ends at `c`. */
  lemma NoRunEndsAt(items: map<Location, Item>, d: Dims, k: nat, c: Location, run: seq<Location>)
    requires k > 0 && |run| < k && Stretch(items, c, c.zone + 1, run)
    ensures forall t :: ValidStart(items, d, t, k) ==> At(t, t.zone + k - 1) != c
  {
    forall t | ValidStart(items, d, t, k) ensures At(t, t.zone + k - 1) != c {
      var z := c.zone - |run|;
      if |run| <= c.zone && t.zone <= z < t.zone + k {
        assert At(t, z) !in items;
      }
    }
  }

  /** Within one (row, shelf, level) the stretch carries over to the next zone's cursor. */
  lemma StretchCarries(items: map<Location, Item>, d: Dims, c: Location, run: seq<Location>)
    requires Stretch(items, c, c.zone + 1, run)
    ensures Step(c, d).zone > 0 ==> Stretch(items, Step(c, d), Step(c, d).zone, run)
  {
    if Step(c, d).zone > 0 {
      var n := Step(c, d);
      assert n == At(c, c.zone + 1);
      assert At(n, c.zone + 1 - |run|) == At(c, c.zone + 1 - |run|);
      if |run| < c.zone + 1 {
        assert At(n, c.zone - |run|) == At(c, c.zone - |run|);
      }
    }
  }

  /** No run of `k` free zones ends before the next cursor, once none ends at the current cell. */
  lemma NoRunBefore(items: map<Location, Item>, d: Dims, k: nat, c: Location, run: seq<Location>)
    requires Cursor(c, d) && c.row < d.rows
    requires k > 0 && |run| < k && Stretch(items, c, c.zone + 1, run)
    requires forall t :: ValidStart(items, d, t, k) ==> !Lt(At(t, t.zone + k - 1), c)
    ensures forall t :: ValidStart(items, d, t, k) ==> !Lt(At(t, t.zone + k - 1), Step(c, d))
  {
    NoRunEndsAt(items, d, k, c, run);
    StepCovers(c, d);
    forall t | ValidStart(items, d, t, k) ensures !Lt(At(t, t.zone + k - 1), Step(c, d)) {
      var e := At(t, t.zone + k - 1);
      assert InBounds(e, d);
    }
  }

  /** `nearest_allocation`: reads the warehouse and answers by quality; it never changes it. */
  method NearestAllocation(w: Warehouse, item: Item) returns (r: Result<seq<Location>, Error>)
    ensures NearestOutcome(w.items, w.maxDimensions, item, r)
  {
    var items, d := w.items, w.maxDimensions;
    match item.quality {
      case Normal =>
        var found := FirstFreeCell(items, d, None);
        r := if found.Some? then Ok([found.value]) else Err(NoCapacity);
      case Fragile =>
        var found := FirstFreeCell(items, d, NearestCap(item));
        r := if found.Some? then Ok([found.value]) else Err(NoCapacity);
      case Oversized =>
        if item.requiredZones.None? {
          return Err(InvalidConstraint);
        }
        var k := item.requiredZones.value;
        if k > d.zones {
          return Err(NoCapacity);
        }
        var found := FirstFreeRun(items, d, k);
        r := if found.Some? then Ok(found.value) else Err(NoCapacity);
    }
  }

  /** The sweep's starting cursor: the last allocated cell, or the origin when unset. */
  function StartOf(last: Option<Location>): Location {
    if last.Some? then last.value else Location(0, 0, 0, 0)
  }

  /**
   * Whether the sweep stops at position `p`: `p` is free and the item fits
   * there. An Oversized item without `required_zones` stops at the first free
   * cell, where the error is reported.
   */
  ghost predicate Accepts(items: map<Location, Item>, d: Dims, item: Item, p: Location) {
    p !in items &&
    match item.quality
    case Normal => true
    case Fragile => item.maxLevel.None? || p.level <= item.maxLevel.value
    case Oversized => item.requiredZones.None? || ValidStart(items, d, p, item.requiredZones.value)
  }

  /** What the sweep answers at the position where it stops. */
  function Claim(item: Item, p: Location): Result<seq<Location>, Error> {
    if item.quality == Oversized then
      if item.requiredZones.None? then Err(InvalidConstraint) else Ok(Run(p, item.requiredZones.value))
    else Ok([p])
  }

  /**
   * What `round_robin_allocation` returns: the answer at the first of the
   * `Total(d)` positions after the cursor where the item fits, or no capacity.
   */
  ghost predicate RoundRobinOutcome(items: map<Location, Item>, d: Dims, last: Option<Location>, item: Item,
                                    r: Result<seq<Location>, Error>) {
    var start := StartOf(last);
    (exists n :: 1 <= n <= Total(d) && Accepts(items, d, item, Orbit(start, d, n)) &&
       (forall i :: 1 <= i < n ==> !Accepts(items, d, item, Orbit(start, d, i))) &&
       r == Claim(item, Orbit(start, d, n))) ||
    ((forall i :: 1 <= i <= Total(d) ==> !Accepts(items, d, item, Orbit(start, d, i))) && r == Err(NoCapacity))
  }

  /** Stopping at the `n`-th position, the first that accepts, is the round-robin outcome. */
  lemma StopsAt(items: map<Location, Item>, d: Dims, last: Option<Location>, item: Item, n: nat)
    requires 1 <= n <= Total(d) && Accepts(items, d, item, Orbit(StartOf(last), d, n))
    requires forall i :: 1 <= i < n ==> !Accepts(items, d, item, Orbit(StartOf(last), d, i))
    ensures RoundRobinOutcome(items, d, last, item, Claim(item, Orbit(StartOf(last), d, n)))
  {
  }

  /** A grid with at least one cell has no empty axis. */
  lemma TotalPositive(d: Dims)
    requires Total(d) > 0
    ensures NonEmpty(d)
  {
  }

  /**
   * A round-robin allocation is free, in-bounds cells: one cell within the cap
   * for Normal and Fragile items, `required_zones` contiguous cells from the
   * stopping position for Oversized; its only error besides no capacity is a
   * missing `required_zones`.
   */
  lemma RoundRobinSound(items: map<Location, Item>, d: Dims, last: Option<Location>, item: Item,
                        r: Result<seq<Location>, Error>)
    requires RoundRobinOutcome(items, d, last, item, r)
    ensures r.Ok? ==> NoDuplicates(r.value) &&
                      forall i :: 0 <= i < |r.value| ==> InBounds(r.value[i], d) && r.value[i] !in items
    ensures r.Ok? && item.quality != Oversized ==> |r.value| == 1
    ensures r.Ok? && item.quality == Fragile && item.maxLevel.Some? ==> r.value[0].level <= item.maxLevel.value
    ensures r.Ok? && item.quality == Oversized ==>
              item.requiredZones.Some? && |r.value| == item.requiredZones.value && Contiguous(r.value)
    ensures r.Err? ==> r.error == NoCapacity || (item.quality == Oversized && item.requiredZones.None?)
  {
    if r.Ok? {
      var n :| 1 <= n <= Total(d) && Accepts(items, d, item, Orbit(StartOf(last), d, n)) &&
               r == Claim(item, Orbit(StartOf(last), d, n));
      var p := Orbit(StartOf(last), d, n);
      TotalPositive(d);
      assert InBounds(p, d);
      if item.quality == Oversized {
        RunShape(items, d, p, item.requiredZones.value);
      }
    }
  }

  /**
   * When the sweep starts from a cell of the grid (or the origin) and reports
   * no capacity, the item fits nowhere: it visited every cell.
   */
  lemma RoundRobinComplete(items: map<Location, Item>, d: Dims, last: Option<Location>, item: Item)
    requires last.Some? ==> InBounds(last.value, d)
    requires RoundRobinOutcome(items, d, last, item, Err(NoCapacity))
    ensures forall p :: InBounds(p, d) ==> !Accepts(items, d, item, p)
    ensures item.quality == Normal ==> NoEligibleCell(items, d, None)
    ensures item.quality == Fragile ==> NoEligibleCell(items, d, NearestCap(item))
    ensures item.quality == Oversized && item.requiredZones.Some? && item.requiredZones.value > 0 ==>
              NoRun(items, d, item.requiredZones.value)
  {
    forall p | InBounds(p, d) ensures !Accepts(items, d, item, p) {
      OrbitCovers(StartOf(last), d, p);
    }
    if item.quality == Oversized && item.requiredZones.Some? && item.requiredZones.value > 0 {
      var k := item.requiredZones.value;
      forall t | InBounds(t, d) ensures !ValidStart(items, d, t, k) {
        assert At(t, t.zone) == t;
      }
    }
  }

  /** The sweep from cursor `c` stops at its `n`-th position: the first of the `Total` positions where the item fits. */
  ghost predicate StopPosition(items: map<Location, Item>, d: Dims, item: Item, c: Location, n: nat) {
    1 <= n <= Total(d) && Accepts(items, d, item, Orbit(c, d, n)) &&
    forall i :: 1 <= i < n ==> !Accepts(items, d, item, Orbit(c, d, i))
  }

  /**
   * A successful sweep for a Normal or Fragile item returns the cell where it
   * stops; that cell becomes the cursor of the next sweep.
   */
  lemma RoundRobinStop(items: map<Location, Item>, d: Dims, last: Option<Location>, item: Item,
                       r: Result<seq<Location>, Error>)
    requires RoundRobinOutcome(items, d, last, item, r) && r.Ok? && item.quality != Oversized
    ensures exists n :: StopPosition(items, d, item, StartOf(last), n) && r == Ok([Orbit(StartOf(last), d, n)])
    ensures StartOf(Some(r.value[|r.value| - 1])) == r.value[0]
  {
    var n :| 1 <= n <= Total(d) && Accepts(items, d, item, Orbit(StartOf(last), d, n)) &&
             (forall i :: 1 <= i < n ==> !Accepts(items, d, item, Orbit(StartOf(last), d, i))) &&
             r == Claim(item, Orbit(StartOf(last), d, n));
    assert StopPosition(items, d, item, StartOf(last), n);
  }

  /**
   * Successive sweeps over an unchanged grid, each resuming at the cell the
   * previous one returned, stop `ns[0]`, `ns[1]`, ... positions further on.
   */
  ghost predicate Sweeps(items: map<Location, Item>, d: Dims, item: Item, c: Location, ns: seq<nat>)
    decreases |ns|
  {
    |ns| == 0 ||
    (StopPosition(items, d, item, c, ns[0]) && Sweeps(items, d, item, Orbit(c, d, ns[0]), ns[1..]))
  }

  /** The cells successive sweeps return. */
  function Visits(d: Dims, c: Location, ns: seq<nat>): seq<Location>
    decreases |ns|
  {
    if ns == [] then [] else [Orbit(c, d, ns[0])] + Visits(d, Orbit(c, d, ns[0]), ns[1..])
  }

  function Sum(ns: seq<nat>): nat {
    if ns == [] then 0 else ns[0] + Sum(ns[1..])
  }

  lemma {:induction false} SumSplit(ns: seq<nat>, k: nat)
    requires k <= |ns|
    ensures Sum(ns) == Sum(ns[..k]) + Sum(ns[k..])
    decreases |ns|
  {
    if k == 0 {
      assert ns[..0] == [] && ns[0..] == ns;
    } else {
      SumSplit(ns[1..], k - 1);
      assert ns[..k][1..] == ns[1..][..k - 1];
      assert ns[1..][k - 1..] == ns[k..];
    }
  }

  lemma {:induction false} SumAtLeastLength(ns: seq<nat>)
    requires forall i :: 0 <= i < |ns| ==> ns[i] >= 1
    ensures Sum(ns) >= |ns|
    decreases |ns|
  {
    if ns != [] {
      assert forall i :: 0 <= i < |ns[1..]| ==> ns[1..][i] == ns[i + 1];
      SumAtLeastLength(ns[1..]);
    }
  }

  /** The `k`-th returned cell is the position `ns[0] + ... + ns[k]` of the sweep from the first cursor. */
  lemma {:induction false} VisitsAt(d: Dims, c: Location, ns: seq<nat>)
    ensures |Visits(d, c, ns)| == |ns|
    ensures forall k :: 0 <= k < |ns| ==> Visits(d, c, ns)[k] == Orbit(c, d, Sum(ns[..k + 1]))
    decreases |ns|
  {
    if ns != [] {
      var next := Orbit(c, d, ns[0]);
      VisitsAt(d, next, ns[1..]);
      forall k | 0 <= k < |ns| ensures Visits(d, c, ns)[k] == Orbit(c, d, Sum(ns[..k + 1])) {
        var prefix := ns[..k + 1];
        assert prefix[0] == ns[0] && prefix[1..] == ns[1..][..k];
        if k == 0 {
          assert prefix[1..] == [];
        } else {
          assert Visits(d, c, ns)[k] == Visits(d, next, ns[1..])[k - 1];
          OrbitAdd(c, d, ns[0], Sum(ns[1..][..k]));
        }
      }
    }
  }

  /** Every cell successive sweeps return is free and fits the item. */
  lemma {:induction false} SweepsAccept(items: map<Location, Item>, d: Dims, item: Item, c: Location, ns: seq<nat>)
    requires Sweeps(items, d, item, c, ns)
    ensures forall k :: 0 <= k < |ns| ==> ns[k] >= 1
    ensures forall k :: 0 <= k < |Visits(d, c, ns)| ==>
              Accepts(items, d, item, Visits(d, c, ns)[k]) && Visits(d, c, ns)[k] !in items
    decreases |ns|
  {
    if ns != [] {
      var next := Orbit(c, d, ns[0]);
      SweepsAccept(items, d, item, next, ns[1..]);
      forall k | 0 <= k < |ns| ensures ns[k] >= 1 {
        if k > 0 {
          assert ns[k] == ns[1..][k - 1];
        }
      }
    }
  }

  /** One more sweep, from where the earlier ones left the cursor, extends the chain by its stop. */
  lemma {:induction false} SweepsSnoc(items: map<Location, Item>, d: Dims, item: Item, c: Location, ns: seq<nat>, n: nat)
    requires Sweeps(items, d, item, c, ns) && StopPosition(items, d, item, Orbit(c, d, Sum(ns)), n)
    ensures Sweeps(items, d, item, c, ns + [n])
    ensures Visits(d, c, ns + [n]) == Visits(d, c, ns) + [Orbit(Orbit(c, d, Sum(ns)), d, n)]
    ensures Sum(ns + [n]) == Sum(ns) + n
    decreases |ns|
  {
    if ns == [] {
      assert [n][1..] == [];
    } else {
      var next := Orbit(c, d, ns[0]);
      OrbitAdd(c, d, ns[0], Sum(ns[1..]));
      SweepsSnoc(items, d, item, next, ns[1..], n);
      assert (ns + [n])[1..] == ns[1..] + [n];
    }
  }

  /** The cell of one more sweep is the next cell of the chain, at the new total offset. */
  lemma SweepsNext(items: map<Location, Item>, d: Dims, item: Item, c: Location, ns: seq<nat>, n: nat)
    requires Sweeps(items, d, item, c, ns) && StopPosition(items, d, item, Orbit(c, d, Sum(ns)), n)
    ensures Sweeps(items, d, item, c, ns + [n])
    ensures Visits(d, c, ns + [n]) == Visits(d, c, ns) + [Orbit(Orbit(c, d, Sum(ns)), d, n)]
    ensures Orbit(Orbit(c, d, Sum(ns)), d, n) == Orbit(c, d, Sum(ns + [n]))
  {
    SweepsSnoc(items, d, item, c, ns, n);
    OrbitAdd(c, d, Sum(ns), n);
  }

  /**
   * The link from `round_robin_allocation` to the chain of sweeps: when the
   * cursor is where earlier sweeps left it and the next call succeeds for a
   * Normal or Fragile item, the chain grows by that call's stop, its returned
   * cell is the chain's next cell, and the cursor it leaves is the new end.
   */
  lemma RoundRobinNext(items: map<Location, Item>, d: Dims, item: Item, c: Location, ns: seq<nat>,
                       last: Option<Location>, r: Result<seq<Location>, Error>)
    requires item.quality != Oversized && Sweeps(items, d, item, c, ns)
    requires StartOf(last) == Orbit(c, d, Sum(ns))
    requires RoundRobinOutcome(items, d, last, item, r) && r.Ok?
    ensures exists n :: Sweeps(items, d, item, c, ns + [n]) && Visits(d, c, ns + [n]) == Visits(d, c, ns) + r.value &&
                        StartOf(Some(r.value[|r.value| - 1])) == Orbit(c, d, Sum(ns + [n]))
  {
    RoundRobinStop(items, d, last, item, r);
    var n :| StopPosition(items, d, item, StartOf(last), n) && r == Ok([Orbit(StartOf(last), d, n)]);
    SweepsNext(items, d, item, c, ns, n);
  }

  /**
   * Repeated round-robin sweeps over an unchanged grid return each cell at
   * most once before wrapping around: as long as their stops add up to at
   * most `Total` positions, the returned cells are distinct free cells.
   */
  lemma RoundRobinNoRepeat(items: map<Location, Item>, d: Dims, item: Item, c: Location, ns: seq<nat>)
    requires InBounds(c, d) && Sweeps(items, d, item, c, ns) && Sum(ns) <= Total(d)
    ensures |Visits(d, c, ns)| == |ns| && NoDuplicates(Visits(d, c, ns))
    ensures forall k :: 0 <= k < |ns| ==> Visits(d, c, ns)[k] !in items
  {
    VisitsAt(d, c, ns);
    SweepsAccept(items, d, item, c, ns);
    var v := Visits(d, c, ns);
    forall a, b | 0 <= a < b < |ns| ensures v[a] != v[b] {
      var i, j := Sum(ns[..a + 1]), Sum(ns[..b + 1]);
      var upto := ns[..b + 1];
      SumSplit(upto, a + 1);
      assert upto[..a + 1] == ns[..a + 1];
      var rest := upto[a + 1..];
      forall x | 0 <= x < |rest| ensures rest[x] >= 1 {
        assert rest[x] == ns[a + 1 + x];
      }
      SumAtLeastLength(rest);
      SumAtLeastLength(ns[..a + 1]);
      SumSplit(ns, b + 1);
      OrbitApart(c, d, i, j);
    }
  }

  /** The sweep's claim loop: take `k` free zones from `p` onwards, failing at the zone bound or an occupied cell. */
  method ClaimRun(items: map<Location, Item>, d: Dims, p: Location, k: nat) returns (claimed: seq<Location>, success: bool)
    requires InBounds(p, d)
    ensures success <==> ValidStart(items, d, p, k)
    ensures success ==> claimed == Run(p, k)
  {
    claimed := [];
    var tempZone := p.zone;
    success := true;
    for j := 0 to k
      invariant tempZone == p.zone + j && p.zone + j <= d.zones
      invariant claimed == Run(p, j) && RunFree(items, p, j)
    {
      if tempZone >= d.zones {
        success := false;
        break;
      }
      var cell := At(p, tempZone);
      if cell !in items {
        RunExtend(p, j);
        claimed := claimed + [cell];
        tempZone := tempZone + 1;
      } else {
        success := false;
        break;
      }
    }
  }

  /**
   * `round_robin_allocation`: advance the cursor at most `Total` times; stop
   * at the first position where the item fits. Only the cursor field changes:
   * it moves to the last allocated cell on success.
   */
  method RoundRobinAllocation(w: Warehouse, item: Item) returns (r: Result<seq<Location>, Error>)
    modifies w
    ensures w.items == old(w.items) && w.usageCount == old(w.usageCount)
    ensures RoundRobinOutcome(w.items, w.maxDimensions, old(w.lastAllocation), item, r)
    ensures w.lastAllocation == if r.Ok? && |r.value| > 0 then Some(r.value[|r.value| - 1]) else old(w.lastAllocation)
  {
    var items, d := w.items, w.maxDimensions;
    var total := d.rows * d.shelves * d.levels * d.zones;
    var current := StartOf(w.lastAllocation);
    ghost var start := current;
    var attempts := 0;
    while attempts < total
      invariant 0 <= attempts <= total
      invariant current == Orbit(start, d, attempts)
      invariant forall i :: 1 <= i <= attempts ==> !Accepts(items, d, item, Orbit(start, d, i))
      invariant w.lastAllocation == old(w.lastAllocation) && w.items == items && w.usageCount == old(w.usageCount)
    {
      attempts := attempts + 1;
      current := Successor(current, d);
      TotalPositive(d);
      if current !in items {
        match item.quality {
          case Normal =>
            StopsAt(items, d, old(w.lastAllocation), item, attempts);
            w.lastAllocation := Some(current);
            return Ok([current]);
          case Fragile =>
            if item.maxLevel.Some? && current.level > item.maxLevel.value {
              continue;
            }
            StopsAt(items, d, old(w.lastAllocation), item, attempts);
            w.lastAllocation := Some(current);
            return Ok([current]);
          case Oversized =>
            if item.requiredZones.None? {
              StopsAt(items, d, old(w.lastAllocation), item, attempts);
              return Err(InvalidConstraint);
            }
            var k := item.requiredZones.value;
            if k > d.zones {
              continue;
            }
            var claimed, success := ClaimRun(items, d, current, k);
            if success {
              StopsAt(items, d, old(w.lastAllocation), item, attempts);
              if |claimed| > 0 {
                w.lastAllocation := Some(claimed[|claimed| - 1]);
              }
              return Ok(claimed);
            }
        }
      }
    }
    return Err(NoCapacity);
  }
}

