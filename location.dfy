/**
 * The coordinate space of the warehouse: a cell `(row, shelf, level, zone)`,
 * the grid bounds, the derived lexicographic order on cells, and the two ways
 * the source walks the grid (nested `for` loops, and the round-robin cursor).
 */
module Locations {

  /** One addressable cell; the source's `Location` with derived `Ord`. */
  datatype Location = Location(row: nat, shelf: nat, level: nat, zone: nat)

  /** The grid bounds `(rows, shelves, levels, zones)`. */
  datatype Dims = Dims(rows: nat, shelves: nat, levels: nat, zones: nat)

  predicate InBounds(l: Location, d: Dims) {
    l.row < d.rows && l.shelf < d.shelves && l.level < d.levels && l.zone < d.zones
  }

  /** Every axis has at least one position, so the grid has at least one cell. */
  predicate NonEmpty(d: Dims) {
    d.rows > 0 && d.shelves > 0 && d.levels > 0 && d.zones > 0
  }

  /** The derived lexicographic order on (row, shelf, level, zone), strict part. */
  predicate Lt(a: Location, b: Location) {
    a.row < b.row ||
    (a.row == b.row && (a.shelf < b.shelf ||
    (a.shelf == b.shelf && (a.level < b.level ||
    (a.level == b.level && a.zone < b.zone)))))
  }

  lemma LtIsStrictTotalOrder(a: Location, b: Location, c: Location)
    ensures !Lt(a, a)
    ensures Lt(a, b) && Lt(b, c) ==> Lt(a, c)
    ensures a == b || Lt(a, b) || Lt(b, a)
    ensures !(Lt(a, b) && Lt(b, a))
  {
  }

  /** The cell of `s`'s (row, shelf, level) at zone `z`. */
  function At(s: Location, z: nat): Location {
    Location(s.row, s.shelf, s.level, z)
  }

  /**
   * The next position of the source's nested `for row / for shelf / for level /
   * for zone` loops: the zone advances, carrying into level, shelf and row.
   * Past the last cell it yields `(rows, 0, 0, 0)`, where the outer loop stops.
   */
  function Step(c: Location, d: Dims): Location {
    if c.zone + 1 < d.zones then At(c, c.zone + 1)
    else if c.level + 1 < d.levels then Location(c.row, c.shelf, c.level + 1, 0)
    else if c.shelf + 1 < d.shelves then Location(c.row, c.shelf + 1, 0, 0)
    else Location(c.row + 1, 0, 0, 0)
  }

  /** A cursor of the nested loops: inside the grid, or just past its end. */
  predicate Cursor(c: Location, d: Dims) {
    NonEmpty(d) && c.row <= d.rows && c.shelf < d.shelves && c.level < d.levels && c.zone < d.zones &&
    (c.row == d.rows ==> c == Location(d.rows, 0, 0, 0))
  }

  /**
   * One step of the nested loops visits exactly the current cell: the cells
   * before the new cursor are the cells before the old one plus the old one.
   */
  lemma StepCovers(c: Location, d: Dims)
    requires Cursor(c, d) && c.row < d.rows
    ensures Cursor(Step(c, d), d)
    ensures Lt(c, Step(c, d))
    ensures forall l {:trigger Lt(l, Step(c, d))} :: InBounds(l, d) ==>
              (Lt(l, Step(c, d)) <==> Lt(l, c) || l == c)
  {
  }

  /** Past the end of the grid, every cell has been visited. */
  lemma CursorDone(c: Location, d: Dims, l: Location)
    requires Cursor(c, d) && c.row == d.rows && InBounds(l, d)
    ensures Lt(l, c)
  {
  }

  /**
   * The round-robin successor exactly as the allocator writes it: zone + 1,
   * then each axis that reached its bound is reset to 0 and carries into the
   * next, and the row wraps to 0.
   */
  function Successor(c: Location, d: Dims): (n: Location)
    ensures NonEmpty(d) ==> InBounds(n, d)
  {
    var zone := c.zone + 1;
    var (zone, level) := if zone >= d.zones then (0, c.level + 1) else (zone, c.level);
    var (level, shelf) := if level >= d.levels then (0, c.shelf + 1) else (level, c.shelf);
    var (shelf, row) := if shelf >= d.shelves then (0, c.row + 1) else (shelf, c.row);
    var row := if row >= d.rows then 0 else row;
    Location(row, shelf, level, zone)
  }

  /** The number of cells, `rows * shelves * levels * zones`, as the round-robin sweep computes it. */
  function Total(d: Dims): nat {
    d.rows * d.shelves * d.levels * d.zones
  }

  /** One mixed-radix digit step: `q * n + r`. */
  function Lin(q: nat, n: nat, r: nat): nat {
    q * n + r
  }

  /** The position of a cell in row-major order. */
  function Rank(c: Location, d: Dims): nat {
    Lin(Lin(Lin(c.row, d.shelves, c.shelf), d.levels, c.level), d.zones, c.zone)
  }

  /** Multiplication by a natural number is monotone. */
  lemma {:induction false} MulMono(x: nat, y: nat, n: nat)
    requires x <= y
    ensures x * n <= y * n
    decreases y - x
  {
    if x < y {
      MulMono(x + 1, y, n);
      assert (x + 1) * n == x * n + n;
    }
  }

  /** `q * n + r` with `r < n` lies below `b * n` for any `b > q`. */
  lemma MulStep(q: nat, r: nat, n: nat, b: nat)
    requires r < n && q < b
    ensures q * n + r < b * n
  {
    assert q * n + n == (q + 1) * n;
    MulMono(q + 1, b, n);
  }

  /** Quotient and remainder are unique: `q * n + r` determines both when `r < n`. */
  lemma MulUnique(q1: nat, r1: nat, q2: nat, r2: nat, n: nat)
    requires r1 < n && r2 < n && Lin(q1, n, r1) == Lin(q2, n, r2)
    ensures q1 == q2 && r1 == r2
  {
    if q1 < q2 {
      MulStep(q1, r1, n, q2);
    } else if q2 < q1 {
      MulStep(q2, r2, n, q1);
    }
  }

  /** The ranks of the grid's cells are below `Total`. */
  lemma RankBound(c: Location, d: Dims)
    requires InBounds(c, d)
    ensures Rank(c, d) < Total(d)
  {
    var a1 := Lin(c.row, d.shelves, c.shelf);
    var a2 := Lin(a1, d.levels, c.level);
    MulStep(c.row, c.shelf, d.shelves, d.rows);
    MulStep(a1, c.level, d.levels, d.rows * d.shelves);
    MulStep(a2, c.zone, d.zones, d.rows * d.shelves * d.levels);
  }

  /** Distinct cells of the grid have distinct ranks. */
  lemma RankInjective(a: Location, b: Location, d: Dims)
    requires InBounds(a, d) && InBounds(b, d) && Rank(a, d) == Rank(b, d)
    ensures a == b
  {
    var a1, b1 := Lin(a.row, d.shelves, a.shelf), Lin(b.row, d.shelves, b.shelf);
    var a2, b2 := Lin(a1, d.levels, a.level), Lin(b1, d.levels, b.level);
    MulUnique(a2, a.zone, b2, b.zone, d.zones);
    MulUnique(a1, a.level, b1, b.level, d.levels);
    MulUnique(a.row, a.shelf, b.row, b.shelf, d.shelves);
  }

  /** Inside the grid, the successor is the next cell in row-major order, or the first after the last. */
  lemma SuccessorStep(c: Location, d: Dims)
    requires InBounds(c, d)
    ensures (Successor(c, d) == Location(0, 0, 0, 0) && Rank(c, d) + 1 == Total(d)) ||
            Rank(Successor(c, d), d) == Rank(c, d) + 1
  {
    var a := Lin(c.row, d.shelves, c.shelf);
    var b := Lin(a, d.levels, c.level);
    if c.zone + 1 < d.zones {
      assert Successor(c, d) == At(c, c.zone + 1);
    } else if c.level + 1 < d.levels {
      assert Successor(c, d) == Location(c.row, c.shelf, c.level + 1, 0);
      assert (b + 1) * d.zones == b * d.zones + d.zones;
    } else if c.shelf + 1 < d.shelves {
      assert Successor(c, d) == Location(c.row, c.shelf + 1, 0, 0);
      assert (a + 1) * d.levels == a * d.levels + d.levels;
      assert (b + 1) * d.zones == b * d.zones + d.zones;
    } else if c.row + 1 < d.rows {
      assert Successor(c, d) == Location(c.row + 1, 0, 0, 0);
      assert (c.row + 1) * d.shelves == c.row * d.shelves + d.shelves;
      assert (a + 1) * d.levels == a * d.levels + d.levels;
      assert (b + 1) * d.zones == b * d.zones + d.zones;
    } else {
      assert Successor(c, d) == Location(0, 0, 0, 0);
      assert (c.row + 1) * d.shelves == c.row * d.shelves + d.shelves;
      assert a + 1 == d.rows * d.shelves;
      assert (a + 1) * d.levels == a * d.levels + d.levels;
      assert b + 1 == d.rows * d.shelves * d.levels;
      assert (b + 1) * d.zones == b * d.zones + d.zones;
    }
  }

  /** Adding one modulo `t` to a residue. */
  lemma ModNext(x: nat, t: nat)
    requires x < t
    ensures (x + 1) % t == if x + 1 < t then x + 1 else 0
  {
  }

  /** The round-robin successor advances the rank by one, wrapping from the last cell to the first. */
  lemma SuccessorRank(c: Location, d: Dims)
    requires InBounds(c, d)
    ensures Total(d) > 0
    ensures Rank(Successor(c, d), d) == (Rank(c, d) + 1) % Total(d)
  {
    SuccessorStep(c, d);
    RankBound(c, d);
    RankBound(Successor(c, d), d);
    ModNext(Rank(c, d), Total(d));
  }

  /** The `i`-th position of the round-robin sweep from `start`. */
  function Orbit(start: Location, d: Dims, i: nat): Location {
    if i == 0 then start else Successor(Orbit(start, d, i - 1), d)
  }

  /** `x % t` is the `r` of any decomposition `x == q * t + r` with `r < t`. */
  lemma ModUnique(x: nat, q: nat, r: nat, t: nat)
    requires r < t && x == q * t + r
    ensures x % t == r
  {
    assert x == Lin(x / t, t, x % t);
    MulUnique(x / t, x % t, q, r, t);
  }

  /** Taking the remainder first does not change the next remainder. */
  lemma ModShift(y: nat, t: nat)
    requires t > 0
    ensures (y % t + 1) % t == (y + 1) % t
  {
    var q := y / t;
    var r := y % t;
    assert y == q * t + r;
    if r + 1 == t {
      assert y + 1 == (q + 1) * t + 0;
      ModUnique(y + 1, q + 1, 0, t);
      ModUnique(r + 1, 1, 0, t);
    } else {
      ModUnique(y + 1, q, r + 1, t);
      ModUnique(r + 1, 0, r + 1, t);
    }
  }

  /** One step of a residue chain: from `y % t`, adding one and reducing again gives `(y + 1) % t`. */
  lemma ModChain(prev: nat, next: nat, y: nat, t: nat)
    requires t > 0 && prev == y % t && next == (prev + 1) % t
    ensures next == (y + 1) % t
  {
    ModShift(y, t);
  }

  /** From a cell of the grid, the sweep's `i`-th position has rank `Rank(start) + i`, modulo `Total`. */
  lemma {:induction false} OrbitRank(start: Location, d: Dims, i: nat)
    requires InBounds(start, d)
    ensures Total(d) > 0 && InBounds(Orbit(start, d, i), d)
    ensures Rank(Orbit(start, d, i), d) == (Rank(start, d) + i) % Total(d)
  {
    RankBound(start, d);
    if i > 0 {
      var prev := Orbit(start, d, i - 1);
      OrbitRank(start, d, i - 1);
      SuccessorRank(prev, d);
      ModChain(Rank(prev, d), Rank(Orbit(start, d, i), d), Rank(start, d) + i - 1, Total(d));
    } else {
      ModUnique(Rank(start, d), 0, Rank(start, d), Total(d));
    }
  }

  /** Every residue `b` is reached from `a` within `t` steps. */
  lemma ModReach(a: nat, b: nat, t: nat) returns (i: nat)
    requires a < t && b < t
    ensures 1 <= i <= t && (a + i) % t == b
  {
    i := if b > a then b - a else b + t - a;
    if b > a {
      assert a + i == b;
    } else {
      assert a + i == b + t;
    }
  }

  /**
   * From a cell of the grid, the `Total` positions after `start` are all the
   * cells: the round-robin sweep visits every cell once before giving up.
   */
  lemma OrbitCovers(start: Location, d: Dims, l: Location)
    requires InBounds(start, d) && InBounds(l, d)
    ensures exists i :: 1 <= i <= Total(d) && Orbit(start, d, i) == l
  {
    RankBound(start, d);
    RankBound(l, d);
    var i := ModReach(Rank(start, d), Rank(l, d), Total(d));
    OrbitRank(start, d, i);
    RankInjective(Orbit(start, d, i), l, d);
  }

  /** `m` steps after the `n`-th position is the `(n + m)`-th position. */
  lemma {:induction false} OrbitAdd(start: Location, d: Dims, n: nat, m: nat)
    ensures Orbit(Orbit(start, d, n), d, m) == Orbit(start, d, n + m)
    decreases m
  {
    if m > 0 {
      OrbitAdd(start, d, n, m - 1);
    }
  }

  /** Offsets that differ by less than `t` leave different remainders. */
  lemma ModApart(x: nat, i: nat, j: nat, t: nat)
    requires i < j < i + t
    ensures (x + i) % t != (x + j) % t
  {
    var q, r := (x + i) / t, (x + i) % t;
    assert x + i == q * t + r;
    var delta := j - i;
    if r + delta < t {
      ModUnique(x + j, q, r + delta, t);
    } else {
      assert x + j == (q + 1) * t + (r + delta - t);
      ModUnique(x + j, q + 1, r + delta - t, t);
    }
  }

  /** Fewer than `Total` steps apart, two positions of the sweep are different cells. */
  lemma OrbitApart(start: Location, d: Dims, i: nat, j: nat)
    requires InBounds(start, d) && i < j < i + Total(d)
    ensures Orbit(start, d, i) != Orbit(start, d, j)
  {
    OrbitRank(start, d, i);
    OrbitRank(start, d, j);
    ModApart(Rank(start, d), i, j, Total(d));
  }
}
