# Warehouse placement engine — a Dafny model

This project models the placement engine of a small Rust warehouse manager.
The warehouse is a fixed four-dimensional grid of cells `(row, shelf, level, zone)`.
Its state is two maps:

- `items`: which item occupies each cell;
- `usage_count`: how many times each cell has ever been filled.

The engine does the following:

- places items all-or-nothing with a usage-balanced best-fit allocator:
  - Normal items get one cell;
  - Fragile items get one cell under a level cap;
  - Oversized items get a run of contiguous zones;
- removes single cells, or a whole Oversized item;
- rebuilds logical items from their per-cell copies, grouped by `(num_id, name, timestamp)`;
- answers quantity, location and expiry queries over those groups.

The model also covers:

- the two alternative allocators: a first-free "nearest" scan and a round-robin sweep with a cursor;
- the item record;
- the validator for a location typed as four strings;
- three self-contained pieces of the practice program: a grocery store of nested maps, a Vigenère-style cipher, and a flatten/filter/deduplicate pipeline.

Each part keeps the source's form:

- `Warehouse` and `GroceryStore` are classes whose methods update their fields in place.
- The scans are `while` loops proved against reference predicates: best cell, first cell, best run, first run, none at all.
- Pure code is functions and lemmas.

The modules are:

- `Common`: Option, Result, distinctness.
- `Locations`: cells, bounds, the derived order, the nested-loop cursor, the round-robin successor and its orbit.
- `Items`: the item record.
- `Grid`: what a placement may use, and the error kinds.
- `Grouping`: keys, sorting, groups, and per-key sums.
- `Warehouse`: the engine.
- `AllocationStrategies`: the two alternative allocators.
- `Utils`: the location validator.
- `Praticas`: the practice program's pieces.

Dates are integer day numbers, and the item timestamp is a parameter. Unsigned 32-bit fields are `nat`. The engine's error strings become the `Error` and `InputError` enums.

## Model

| member | source | states |
|---|---|---|
| Locations.LtIsStrictTotalOrder | src/warehouse/warehouse.rs:5-11 | the derived order on cells (row, then shelf, level, zone) is irreflexive, transitive, total and asymmetric |
| Locations.StepCovers | src/warehouse/warehouse.rs:67-79 | one step of the row-major nested loops visits exactly the current cell: the cells before the new cursor are those before the old one plus the old one |
| Locations.CursorDone | src/warehouse/warehouse.rs:67-79 | once the row loop ends, every cell of the grid has been visited |
| Locations.Successor | src/allocation_strategies.rs:95-116 | the round-robin step (zone + 1, carry into level, shelf, row, row wraps to 0) lands inside any grid with no empty axis |
| Locations.RankBound | src/allocation_strategies.rs:81-84 | the row-major rank of a cell is below `rows*shelves*levels*zones` |
| Locations.RankInjective | src/allocation_strategies.rs:81-84 | two cells with the same rank are the same cell |
| Locations.SuccessorStep | src/allocation_strategies.rs:95-116 | the successor of a cell has the next rank, or is the origin when the cell is the last one |
| Locations.SuccessorRank | src/allocation_strategies.rs:95-116 | the successor adds one to the rank, modulo the number of cells |
| Locations.OrbitRank | src/allocation_strategies.rs:86-116 | after `i` steps from an in-bounds cursor, the cursor is in bounds and its rank is the start's rank plus `i`, modulo the number of cells |
| Locations.OrbitAdd | src/allocation_strategies.rs:86-116 | `m` cursor steps after the `n`-th position is the `(n + m)`-th position, so a sweep resumed from a cursor continues the same cycle |
| Locations.OrbitApart | src/allocation_strategies.rs:86-116 | from an in-bounds cursor, two positions fewer than `rows*shelves*levels*zones` steps apart are different cells |
| Locations.OrbitCovers | src/allocation_strategies.rs:81-116 | the first `rows*shelves*levels*zones` successors of an in-bounds cursor reach every cell of the grid |
| Items.QualityOrder | src/warehouse/item.rs:3-8 | the three quality variants are ordered Fragile < Oversized < Normal, and that order is strict and total |
| Items.NewItem | src/warehouse/item.rs:22-44 | every field is the argument passed for it; the timestamp is the clock reading, given as a parameter |
| Grid.RunShape | src/warehouse/warehouse.rs:126-148 | a valid start gives `k` distinct, free, in-bounds cells in one (row, shelf, level) with consecutive zones, starting at the start |
| Grid.BestCellUnique | src/warehouse/warehouse.rs:85-87 | the least-usage cell, ties broken by the least cell, is unique |
| Grid.BestRunUnique | src/warehouse/warehouse.rs:160-163 | the least-summed-usage run, ties broken by its first cell, is unique |
| Grouping.Insert | src/warehouse/warehouse.rs:210 | inserting a cell into a strictly sorted list keeps it strictly sorted and adds exactly that cell |
| Grouping.SortLocations | src/warehouse/warehouse.rs:210 | a group's cells are sorted ascending, and the result is a permutation of the input |
| Grouping.GroupingPartitions | src/warehouse/warehouse.rs:201-217 | every occupied cell lies in exactly one group |
| Grouping.GroupingKeys | src/warehouse/warehouse.rs:201-217 | the groups' keys are exactly the keys of the occupied cells |
| Grouping.GroupItemIsRepresentative | src/warehouse/warehouse.rs:209-213 | a group's item is the item at the least cell of its key |
| Grouping.GroupingSummary | src/warehouse/warehouse.rs:201-217 | a grouping has distinct keys, one group per occupied key, each carrying its representative item |
| Grouping.SelectedQuantityIsSum | src/warehouse/warehouse.rs:219-239 | summing the selected groups' quantities counts each selected key once, with its representative's quantity |
| Grouping.GroupingQuantity | src/warehouse/warehouse.rs:219-239 | over a grouping, the search total is the sum of quantities once per logical item (key) selected by id or by name, not once per cell |
| Warehouse.FragileCap | src/warehouse/warehouse.rs:90 | the best-fit Fragile cap is `nivel_maximo`, or `levels - 1`, which admits every level when unset |
| Warehouse.AllocationOutcomeUnique | src/warehouse/warehouse.rs:61-166 | the allocation rules admit exactly one outcome for each state and item |
| Warehouse.AllocationRespectsConstraints | src/warehouse/warehouse.rs:28-50 | an allocation already satisfies what `add_item` re-checks: distinct, free, in-bounds cells, the Fragile level cap, exactly `required_zones` contiguous cells for Oversized |
| Warehouse.PlacedCells | src/warehouse/warehouse.rs:52-53 | after storing the item, the allocated cells hold it and every other cell is as before |
| Warehouse.BumpedCounts | src/warehouse/warehouse.rs:54-55 | counting distinct allocated cells raises each of their counts by exactly one, where a missing count is 0; every other count is as before |
| Warehouse.NewCellConsistent | src/warehouse/warehouse.rs:28-53 | a cell the placement fills is in bounds, under the Fragile cap, and for Oversized inside the full run just written |
| Warehouse.OldCellConsistent | src/warehouse/warehouse.rs:28-53 | a cell occupied before a placement into free cells keeps its invariants, its whole run included |
| Warehouse.ConsistentAfterPlacement | src/warehouse/warehouse.rs:28-59 | a successful placement keeps the invariants: cells in bounds, Fragile caps respected, every Oversized cell in a full run of its item |
| Warehouse.RemovalTakesWholeRun | src/warehouse/warehouse.rs:174-186 | removing an Oversized occupant takes its whole contiguous run of cells |
| Warehouse.ConsistentAfterRemoval | src/warehouse/warehouse.rs:168-199 | removal keeps the placement invariants |
| Warehouse.Classify | src/warehouse/warehouse.rs:256-265 | only a dated Fragile item is reported: Expired when its date is before the reference day, otherwise "expires in N days" exactly when 0 <= N <= 3 |
| Warehouse.FilteredSound | src/warehouse/warehouse.rs:241-250 | every group the filter keeps comes from the input and passes the filter |
| Warehouse.FilteredComplete | src/warehouse/warehouse.rs:241-250 | every input group that passes the filter is kept |
| Warehouse.FilteredDistinct | src/warehouse/warehouse.rs:241-250 | filtering groups with distinct keys leaves the keys distinct |
| Warehouse.FilteredCovers | src/warehouse/warehouse.rs:241-250 | over a grouping, a cell whose group passes the filter lies in some kept group |
| Warehouse.FilteredOfGrouping | src/warehouse/warehouse.rs:241-270 | over a grouping, the filtered groups are real groups accepted by the filter, each key once |
| Warehouse.WithIdOfGrouping | src/warehouse/warehouse.rs:241-250 | filtering a grouping by id gives every group of that id, each once, and covers every cell holding that id |
| Warehouse.ExpiringIsReport | src/warehouse/warehouse.rs:252-270 | the expiry report is the classified groups, in order, each with its status |
| Warehouse.ExpiringOfGrouping | src/warehouse/warehouse.rs:252-270 | over a grouping, the report lists real groups with their correct status, each key once |
| Warehouse.ExpiringCovers | src/warehouse/warehouse.rs:252-270 | every cell whose logical item classifies lies in a reported group |
| Warehouse.SumSelected | src/warehouse/warehouse.rs:221-226 | the summing loop over the groups computes the selected-quantity total |
| Warehouse.FilterGroups | src/warehouse/warehouse.rs:243-248 | the filtering loop returns exactly the filtered groups, in order |
| Warehouse.CollectExpiring | src/warehouse/warehouse.rs:254-268 | the classifying loop returns exactly the expiry report |
| Warehouse.BucketByKey | src/warehouse/warehouse.rs:202-206 | each key's bucket holds exactly the cells with that key, each once |
| Warehouse.SortedBucketIsGroup | src/warehouse/warehouse.rs:209-213 | a sorted bucket, paired with the item at its first cell, is the group of its key |
| Warehouse.EmitGroups | src/warehouse/warehouse.rs:208-216 | the emitting loop produces a grouping: one group per bucket, with distinct keys, covering every occupied cell |
| Warehouse.Warehouse.constructor | src/warehouse/warehouse.rs:20-26 | a new warehouse has the given bounds, no items, no usage counts and no round-robin cursor |
| Warehouse.Warehouse.BestFreeCell | src/warehouse/warehouse.rs:65-116 | the scan returns the free cell within the cap with least usage, ties broken by the least cell, or reports that no such cell exists |
| Warehouse.Warehouse.ScanRun | src/warehouse/warehouse.rs:134-144 | the inner zone loop reports whether the `k` cells are free and, if so, their summed usage |
| Warehouse.Warehouse.BestFreeRun | src/warehouse/warehouse.rs:117-164 | the scan returns the run start with least summed usage, ties broken by the least start, or reports that no run exists (including `k > zones`) |
| Warehouse.Warehouse.FindAllocationSpot | src/warehouse/warehouse.rs:61-166 | the allocator's answer is the allocation outcome: best cell for Normal and Fragile, best run for Oversized, an invalid-constraint error when `required_zones` is missing or 0 |
| Warehouse.Warehouse.AddItem | src/warehouse/warehouse.rs:28-59 | on success every allocated cell holds the item and its count grows by one, and nothing else changes; on error neither map changes |
| Warehouse.Warehouse.Commit | src/warehouse/warehouse.rs:52-56 | the write loop stores the item in each cell and bumps each count once |
| Warehouse.CollectCellsOf | src/warehouse/warehouse.rs:177-181 | the collecting loop returns each cell holding the occupant's key exactly once |
| Warehouse.Warehouse.RemoveItem | src/warehouse/warehouse.rs:168-199 | an empty cell is an error that changes nothing; otherwise exactly the removal set is emptied (the cell, or every cell with the Oversized occupant's key) and those items are returned; usage counts never change |
| Warehouse.Warehouse.GroupedItems | src/warehouse/warehouse.rs:201-217 | the result is a grouping of the occupied cells |
| Warehouse.Warehouse.SearchById | src/warehouse/warehouse.rs:230-239 | the total is the quantity summed once per logical item with that id, and found means total > 0 |
| Warehouse.Warehouse.SearchByName | src/warehouse/warehouse.rs:219-228 | the total is the quantity summed once per logical item with that name, and found means total > 0 |
| Warehouse.Warehouse.SearchLocationsById | src/warehouse/warehouse.rs:241-250 | exactly the groups whose item has the id: each a real group, each key once, covering every cell with that id |
| Warehouse.Warehouse.FindExpiringItemsByDate | src/warehouse/warehouse.rs:252-270 | real groups with their correct expiry status, each key once, covering every cell whose logical item classifies |
| AllocationStrategies.NearestCap | src/allocation_strategies.rs:31-35 | the nearest scan caps Fragile levels only when `nivel_maximo` is set |
| AllocationStrategies.NearestOutcomeUnique | src/allocation_strategies.rs:10-77 | the nearest rules admit exactly one outcome |
| AllocationStrategies.NearestRespectsConstraints | src/allocation_strategies.rs:10-77 | a nearest allocation is free, distinct, in-bounds cells; one cell within the cap, or `required_zones` contiguous cells |
| AllocationStrategies.FirstFreeCell | src/allocation_strategies.rs:12-45 | the scan returns the first free cell within the cap in row-major order, or reports that there is none |
| AllocationStrategies.StretchStep | src/allocation_strategies.rs:56-66 | scanning a zone extends the run of consecutive free zones by that cell, or clears it on an occupied cell |
| AllocationStrategies.FirstFreeRun | src/allocation_strategies.rs:53-71 | the scan returns the run of `k` free zones that ends first in row-major order, which is the run with the least start; it returns nothing when `k == 0` or when there is no run |
| AllocationStrategies.RunEndsAt | src/allocation_strategies.rs:59-63 | a run found at its end cell, when no run ends earlier, is the first run |
| AllocationStrategies.NoRunEndsAt | src/allocation_strategies.rs:56-67 | when the stretch at a cell is shorter than `k`, no run of `k` free zones ends there |
| AllocationStrategies.NearestAllocation | src/allocation_strategies.rs:10-77 | the answer is the nearest outcome: first cell, first run, an invalid-constraint error without `required_zones`, no capacity when `required_zones` is 0 or exceeds `zones`; the warehouse is only read |
| AllocationStrategies.RoundRobinSound | src/allocation_strategies.rs:79-174 | a round-robin allocation is free, distinct, in-bounds cells within the Fragile cap or forming `required_zones` contiguous zones; its only errors are no capacity and a missing `required_zones` |
| AllocationStrategies.RoundRobinComplete | src/allocation_strategies.rs:79-174 | when the sweep starts inside the grid and reports no capacity, the item fits at no cell of the grid |
| AllocationStrategies.ClaimRun | src/allocation_strategies.rs:141-157 | claiming succeeds exactly when `k` free zones start at the cell without crossing the zone bound, and then returns those cells |
| AllocationStrategies.RoundRobinStop | src/allocation_strategies.rs:86-132 | a successful Normal or Fragile sweep returns the single cell where it stops, and that cell is the next sweep's starting cursor |
| AllocationStrategies.SweepsSnoc | src/allocation_strategies.rs:79-132 | a further sweep from where the earlier ones left the cursor adds its stop to the chain and its cell to the returned cells |
| AllocationStrategies.SweepsNext | src/allocation_strategies.rs:79-132 | the cell of a further sweep is the chain's position at the new total offset from the first cursor |
| AllocationStrategies.RoundRobinNext | src/allocation_strategies.rs:79-132 | a successful call whose cursor is where earlier sweeps left it extends their chain by its stop, returns the chain's next cell, and leaves the cursor at the chain's new end |
| AllocationStrategies.VisitsAt | src/allocation_strategies.rs:79-132 | the `k`-th cell returned by successive sweeps is the sweep position at the sum of the first `k + 1` stops |
| AllocationStrategies.SweepsAccept | src/allocation_strategies.rs:93-132 | every cell returned by successive sweeps is free and fits the item, and every stop is at least one position on |
| AllocationStrategies.RoundRobinNoRepeat | src/allocation_strategies.rs:79-173 | repeated sweeps over an unchanged grid return distinct free cells as long as their stops add up to at most one full cycle of the grid: no free cell is returned twice before the sweep wraps around |
| AllocationStrategies.RoundRobinAllocation | src/allocation_strategies.rs:79-174 | the answer is the one at the first of the `Total` positions after the cursor where the item fits, or no capacity; items and counts never change; the cursor moves to the last returned cell only on a non-empty success |
| Utils.ParseU32 | src/utils.rs:8-11 | a string parses exactly when it is an optional `+` and then one or more digits whose value is below 2^32, and the result is that value |
| Utils.ParseShowRoundTrip | src/utils.rs:8-11 | every 32-bit number parses back from its decimal form, with or without a `+` |
| Utils.ParseIgnoresLeadingZero | src/utils.rs:8-11 | a leading zero does not change what a string of digits parses to |
| Utils.ValidateLocationInput | src/utils.rs:7-18 | on success the cell is the four parsed numbers and lies in bounds; each field's parse error is reported exactly when it is the first field in the order row, shelf, level, zone that fails to parse; out of bounds is reported exactly when all four parse and some coordinate reaches its bound |
| Utils.ValidateShownLocation | src/utils.rs:7-18 | a cell typed in decimal is accepted as exactly that cell when it is in bounds, and is rejected as out of bounds otherwise |
| Praticas.LookupPut | praticas/main.rs:689-706 | after storing, the product is found at its place under its id, and every other lookup is unchanged; the level exists afterwards |
| Praticas.LookupDelete | praticas/main.rs:710-722 | after removing, the id is absent at that level, and every other lookup and level is unchanged |
| Praticas.LookupReplace | praticas/main.rs:754-801 | an in-place product update changes only the addressed product, and only when it is present |
| Praticas.ReplaceSame | praticas/main.rs:792-794 | writing back an unchanged product leaves the store as it was |
| Praticas.KeyedByIdPreserved | praticas/main.rs:689-801 | storing, removing and same-id updates keep every product filed under its own id |
| Praticas.MoveRelocates | praticas/main.rs:724-737 | a present product ends up at the destination and no longer at a different source; every other place and id is unchanged; an absent product changes nothing |
| Praticas.TakeQuantity | praticas/main.rs:789-794 | the amount is subtracted exactly when there is enough stock; otherwise the quantity is unchanged, so it never goes below zero |
| Praticas.GroceryStore.constructor | praticas/main.rs:683-687 | a new store is empty |
| Praticas.GroceryStore.AddProduct | praticas/main.rs:689-706 | the store becomes the old store with the product stored at (row, shelf, level) under its id, creating the path as needed |
| Praticas.GroceryStore.RemoveProduct | praticas/main.rs:710-722 | the store becomes the old store without that id at that level; a missing row, shelf, level or id changes nothing |
| Praticas.GroceryStore.MoveProduct | praticas/main.rs:724-737 | the store becomes the move of the product from the source to the destination, or stays unchanged when the product is absent |
| Praticas.GroceryStore.ChangeName | praticas/main.rs:754-767 | only the addressed product's name changes, and only when it is present |
| Praticas.GroceryStore.AddQuantity | praticas/main.rs:769-782 | only the addressed product's quantity changes, growing by exactly the amount |
| Praticas.GroceryStore.RemoveQuantity | praticas/main.rs:784-801 | only the addressed product's quantity changes, following the take-if-enough rule |
| Praticas.CipherChar | praticas/main.rs:397-398 | every output character is 7-bit |
| Praticas.VigenereCipher | praticas/main.rs:391-403 | the output has one character per input character; character i is the input's low byte plus the cyclic key byte mod 128, taken mod 128; every output code is below 128 |
| Praticas.DecipherCipherChar | praticas/main.rs:397-398 | on 7-bit input, the inverse shift with the same key byte restores the character |
| Praticas.CipherRoundTrip | praticas/main.rs:391-403 | on 7-bit text, deciphering with the same key gives back the text |
| Praticas.DistinctKept | praticas/main.rs:1179-1181 | the result has no duplicates and holds exactly the input's multiples of 2 or 3 |
| Praticas.Flatten | praticas/main.rs:1176-1178 | a value is in the flattened sequence exactly when it is in some inner sequence |
| Praticas.FlattenDeduplicateFilter | praticas/main.rs:1173-1183 | the result has no duplicates and holds x exactly when x occurs in some inner sequence and is a multiple of 2 or of 3 |

## Left out

- Unsigned 32-bit arithmetic: coordinates, counts and quantities are `nat`. The model does not capture:
  - overflow of `usage_count + 1`;
  - overflow of summed run usage;
  - overflow of the search totals;
  - overflow of `rows*shelves*levels*zones` in the round-robin sweep;
  - overflow of `add_quantity`.
  The source panics in debug builds and wraps in release builds.
- Warehouse.FragileCap: with zero levels the model gives -1 when `nivel_maximo` is unset. The source evaluates `levels - 1` eagerly, so it underflows with zero levels either way. No cell exists in that grid, so the release-build answer is the same (no capacity). The debug-build panic is not modelled.
- Praticas.VigenereCipher: the `u8` sum of the character's low byte and the key offset wraps here, as in a release build. A debug build panics when a non-ASCII character's low byte plus the offset exceeds 255. An empty key with a non-empty text divides by zero in the source; here that is a precondition.
- Praticas.FlattenDeduplicateFilter: the source collects through a hash set, so its order is unspecified. The model keeps first occurrences, and its contract states membership and distinctness only.
- HashMap iteration order: `grouped_items` emits groups, and `remove_item` returns removed items, in the map's order. The model chooses cells arbitrarily (`:|`), and no contract states an order.
- The best-fit allocator collects candidates and sorts them by (usage, cell). The model keeps a running minimum over the same row-major scan. The chosen cell is the same; the candidate vectors are not modelled.
- The `add_item` re-checks (the Fragile level and the Oversized length) are modelled by `AllocationRespectsConstraints`, which shows that they always pass after the allocator. The `ConstraintViolation` error is therefore never produced.
- Dates and time: `parse_date`, chrono's `NaiveDate` and `num_days`, and the clock read in `Item::new` are not part of this model. Dates are integer day numbers, `num_days` is subtraction, and the timestamp is a parameter.
- Error messages are the `Error` and `InputError` enums, not the Portuguese strings. Success and failure messages printed by the grocery store are not modelled.
- `change_price` and the product price: `f32` floating point. The price is carried as a `real` that no operation computes with.
- src/main.rs is not part of this model: the GUI, colours, forms and item creation from form fields.
- The practice program's menu loops, printers (`list_*`), random-number games, calculators, shapes, library loop, `fibonacci` and `prime_checker` are not part of this model, since they are I/O, randomness or floating point.
- The alternative allocators are not compiled into the program (src/main.rs declares only the warehouse and utils modules). Their `last_allocation` cursor is not a field of the source's `Warehouse`; the model adds it as `lastAllocation`.
- The round-robin sweep is proved complete (`RoundRobinComplete`) only when its cursor starts inside the grid or is unset. A cursor left outside the grid by a change of bounds is not covered by that lemma.
- AllocationStrategies.RoundRobinNoRepeat: the chain of repeated sweeps (`Sweeps`, `RoundRobinNext`) covers Normal and Fragile items, whose cursor moves to the returned cell. An Oversized success moves the cursor to the end of its run instead, and repeated Oversized sweeps are not covered.

## Differences within the source

None of these is a bug. They are differences between parts of the source that a reader should know about:

- The two allocators default the Fragile cap differently. Best-fit uses `levels - 1` (`FragileCap`), and the nearest scan uses no cap (`NearestCap`).
- For an Oversized item with `required_zones == 0`, best-fit reports an invalid constraint, while the nearest scan reports no capacity (`NearestOutcome`).
- The round-robin sweep answers the same request, when some cell is free, with success and no cells, and leaves its cursor where it was (`RoundRobinOutcome`). On a full grid it reports no capacity.
- `remove_item` on an Oversized occupant empties every cell whose item has the same `(num_id, name, timestamp)`, whatever that item's quality (`RemovalSet`).
