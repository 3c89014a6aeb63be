/**
 * What a placement may use: free cells, the per-quality cell constraint,
 * contiguous zone runs, usage counts, and the error kinds of the engine.
 * These are the reference definitions the allocators are proved against.
 */
module Grid {
  import opened Common
  import opened Locations
  import opened Items

  /** The engine's failures (the source reports them as strings). */
  datatype Error = NoCapacity | InvalidConstraint | ConstraintViolation | NotFound

  /** A cell's usage count; a cell never filled has no entry and counts 0. */
  function UsageAt(usage: map<Location, nat>, l: Location): nat {
    if l in usage then usage[l] else 0
  }

  /** The Fragile level cap: `None` places no bound on the level. */
  predicate LevelAllowed(cap: Option<int>, l: Location) {
    cap.None? || l.level <= cap.value
  }

  /** A single cell an item may take: inside the grid, free, within the level cap. */
  predicate Eligible(items: map<Location, Item>, d: Dims, cap: Option<int>, l: Location) {
    InBounds(l, d) && l !in items && LevelAllowed(cap, l)
  }

  /** The sort key of the usage-balanced allocator: usage first, then location. */
  predicate Better(u1: nat, l1: Location, u2: nat, l2: Location) {
    u1 < u2 || (u1 == u2 && Lt(l1, l2))
  }

  /** `l` is the eligible cell of least usage, the least location among equals. */
  ghost predicate IsBestCell(items: map<Location, Item>, usage: map<Location, nat>, d: Dims,
                             cap: Option<int>, l: Location) {
    Eligible(items, d, cap, l) &&
    forall m :: Eligible(items, d, cap, m) && m != l ==>
      Better(UsageAt(usage, l), l, UsageAt(usage, m), m)
  }

  /** `l` is the first eligible cell in row-major order. */
  ghost predicate IsFirstCell(items: map<Location, Item>, d: Dims, cap: Option<int>, l: Location) {
    Eligible(items, d, cap, l) &&
    forall m :: Eligible(items, d, cap, m) && m != l ==> Lt(l, m)
  }

  ghost predicate NoEligibleCell(items: map<Location, Item>, d: Dims, cap: Option<int>) {
    forall m :: !Eligible(items, d, cap, m)
  }

  /** Zones `s.zone .. s.zone + k - 1` of `s`'s (row, shelf, level) are all free. */
  predicate RunFree(items: map<Location, Item>, s: Location, k: nat) {
    forall z :: s.zone <= z < s.zone + k ==> At(s, z) !in items
  }

  /** A run of `k` free zones starting at `s` fits inside the grid. */
  predicate ValidStart(items: map<Location, Item>, d: Dims, s: Location, k: nat) {
    InBounds(s, d) && s.zone + k <= d.zones && RunFree(items, s, k)
  }

  /** Summed usage of the `k` cells starting at `s`. */
  function RunUsage(usage: map<Location, nat>, s: Location, k: nat): nat {
    if k == 0 then 0 else RunUsage(usage, s, k - 1) + UsageAt(usage, At(s, s.zone + k - 1))
  }

  /** The `k` cells starting at `s`, in increasing zone order. */
  function Run(s: Location, k: nat): seq<Location> {
    seq(k, i requires 0 <= i < k => At(s, s.zone + i))
  }

  /** All cells share one (row, shelf, level) and their zones increase by one. */
  predicate Contiguous(locs: seq<Location>) {
    forall i :: 0 <= i < |locs| ==>
      locs[i].row == locs[0].row && locs[i].shelf == locs[0].shelf &&
      locs[i].level == locs[0].level && locs[i].zone == locs[0].zone + i
  }

  /** The run starting at `s` has the least summed usage, the least first cell among equals. */
  ghost predicate IsBestRun(items: map<Location, Item>, usage: map<Location, nat>, d: Dims,
                            k: nat, s: Location) {
    ValidStart(items, d, s, k) &&
    forall t :: ValidStart(items, d, t, k) && t != s ==>
      Better(RunUsage(usage, s, k), s, RunUsage(usage, t, k), t)
  }

  /** The run starting at `s` is the first one in row-major order of its first cell. */
  ghost predicate IsFirstRun(items: map<Location, Item>, d: Dims, k: nat, s: Location) {
    ValidStart(items, d, s, k) &&
    forall t :: ValidStart(items, d, t, k) && t != s ==> Lt(s, t)
  }

  ghost predicate NoRun(items: map<Location, Item>, d: Dims, k: nat) {
    forall t :: !ValidStart(items, d, t, k)
  }

  /** A run from a valid start is `k` free, in-bounds, contiguous cells. */
  lemma RunShape(items: map<Location, Item>, d: Dims, s: Location, k: nat)
    requires ValidStart(items, d, s, k)
    ensures |Run(s, k)| == k && Contiguous(Run(s, k))
    ensures k > 0 ==> Run(s, k)[0] == s
    ensures NoDuplicates(Run(s, k))
    ensures forall i :: 0 <= i < k ==> InBounds(Run(s, k)[i], d) && Run(s, k)[i] !in items
  {
    var r := Run(s, k);
    forall i | 0 <= i < k
      ensures InBounds(r[i], d) && r[i] !in items
    {
      assert r[i] == At(s, s.zone + i);
    }
  }

  /** The usage-balanced choice of a single cell is unique. */
  lemma BestCellUnique(items: map<Location, Item>, usage: map<Location, nat>, d: Dims,
                       cap: Option<int>, a: Location, b: Location)
    requires IsBestCell(items, usage, d, cap, a) && IsBestCell(items, usage, d, cap, b)
    ensures a == b
  {
    if a != b {
      LtIsStrictTotalOrder(a, b, a);
    }
  }

  /** The usage-balanced choice of a run is unique. */
  lemma BestRunUnique(items: map<Location, Item>, usage: map<Location, nat>, d: Dims,
                      k: nat, a: Location, b: Location)
    requires IsBestRun(items, usage, d, k, a) && IsBestRun(items, usage, d, k, b)
    ensures a == b
  {
    if a != b {
      LtIsStrictTotalOrder(a, b, a);
    }
  }
}
