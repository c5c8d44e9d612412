# Vehicle mileage and depreciation store, modelled in Dafny

The system keeps one persistent, ordered table. It maps a vehicle's id to a
`Vehicle` record with six fields: `id`, `model`, `version` and three `nat64`
counters (`mileage`, `depreciation` and `createdAt`). It offers five
operations on that table:

- `getVehicle` looks up a record.
- `addMileage` and `calculateDepreciation` add an amount to one counter,
  stamp the record with the host clock and write it back.
- `filterVehicles` scans the table in key order. It keeps the records that
  agree with a partial record.
- `sortVehicles` copies every record into an array and sorts it by one field.

The model has two modules:

- `Vehicles` (`vehicles.dfy`) holds the values and the pure specifications:
  - the `Vehicle` record, the field names (`Field`) and field values (`Value`);
  - criteria, written as `map<Field, Value>`, which mirrors `Partial<Vehicle>`;
  - what it means to match criteria (`Matches`);
  - the filter's result as a function of the scanned records (`Filter`);
  - sortedness by a numeric field (`SortedBy`);
  - the field-by-field matching loop (`IsVehicleMatchingCriteria`);
  - the in-place array sort (`SortByField`).
- `VehicleStore` (`store.dfy`) holds the class `Store`:
  - `entries: map<string, Vehicle>` is the table;
  - `keys: seq<string>` is the order in which a scan meets the keys;
  - the operations are a function (`GetVehicle`) and methods that update
    `entries` in place or scan it.

Design decisions:

- **Overflow.** The two counter additions (`index.ts:39`, `index.ts:53`) are
  not checked in the source. In the model, an update whose sum would reach
  2^64 fails with `Overflow(id)` and leaves the table untouched. A successful
  update always holds a value below 2^64.
- **Absent key.** `getVehicle` matches the lookup result on `Some`/`None`.
  The two updates instead test it with `!vehicle`. The model gives all three
  operations the `getVehicle` behaviour: a key that is not in the table
  yields `NotFound(id)`, whose message is `A vehicle with id=<id> not found`.
- **Clock.** The host clock `ic.time()` becomes the parameter `now` of the
  two updates.
- **The `createdAt` name.** The field keeps its name. As in the source, every
  update overwrites it, so it holds the time of the last change.
- **Re-insert key.** The updates re-insert under `vehicle.id`, as the source
  does. `Store.Valid()` requires that every record is stored under its own
  id, so this is always the key that was looked up.
- **Sort field.** `sortVehicles` passes the array sort a comparator that
  subtracts the two records' values of the chosen field. The model sorts
  ascending by the value of one of the three `nat64` fields
  (`NumericField`: `Mileage`, `Depreciation` and `CreatedAt`).

## Model

| member | source | states |
|---|---|---|
| `Vehicles.FieldValue` | index.ts:78 | `vehicle[key]`: the three `nat64` fields, and only they, give a number, which is below 2^64; `id` gives the record's id. The value of each field is this function's definition |
| `Vehicles.Message` | index.ts:27 | the error text begins `A vehicle with id=` followed by the id; for not-found it is the source's template exactly (stated in `GetVehicle`) |
| `Vehicles.SortKey` | index.ts:91 | the number the comparator reads for a numeric field is that field's value of the record, and it is below 2^64 |
| `Vehicles.Values` | index.ts:67 | the records of a table listed in a given key order: one per key, the i-th being the record under the i-th key |
| `Vehicles.Filter` | index.ts:65-73 | the records a single pass keeps, in pass order; never more than were scanned |
| `Vehicles.FilterMembership` | index.ts:65-73 | a record is in the filter's result if and only if it was scanned and matches the criteria |
| `Vehicles.FilterIsSubsequence` | index.ts:66-72 | the filter's result is a subsequence of the scanned records, in the same order |
| `Vehicles.FilterKeepsAllMatching` | index.ts:67-71 | when every scanned record matches, the result is the whole scan |
| `Vehicles.FilterEmptyCriteria` | index.ts:76-83 | the empty criterion keeps every record: filtering by it returns the scan unchanged |
| `Vehicles.FilterDistinct` | index.ts:67-71 | a scan without repeated ids yields a result without repeated ids |
| `Vehicles.IsVehicleMatchingCriteria` | index.ts:76-83 | the loop over the criterion's fields, with its early return, answers true if and only if every field the criterion mentions has the same value in the vehicle |
| `Vehicles.InsertLeft` | index.ts:91 | one insertion step: a sorted prefix of length i becomes a sorted prefix of length i + 1 holding the same records as the old first i + 1 places, every later place is untouched, and the array stays a permutation of its old contents |
| `Vehicles.SortByField` | index.ts:91 | the in-place sort leaves the array ascending in the chosen numeric field and a permutation of its old contents |
| `VehicleStore.FilterExtend` | index.ts:68-70 | scanning one more record adds that record to the result exactly when it matches |
| `VehicleStore.FilterOfEntries` | index.ts:65-73 | for a scan without repeated ids, the filter's result is exactly the matching records, in scan order, each once, and the whole scan for the empty criterion |
| `VehicleStore.Store.Entries` | index.ts:67 | the table's records in key order: one per key, so as many as the table holds, the i-th being the record under the i-th key |
| `VehicleStore.Store.EntriesAreStored` | index.ts:21 | a scan meets every stored record exactly once and nothing that is not stored |
| `VehicleStore.Store.constructor` | index.ts:21 | a fresh store is empty and satisfies the table invariant |
| `VehicleStore.Store.Put` | index.ts:42 | the table's insert is an upsert under the record's own id; a new id is added to the key order and an existing id keeps its place |
| `VehicleStore.Store.GetVehicle` | index.ts:24-28 | Ok with the stored record, whose id is the one asked for, if and only if the id is a key; otherwise the not-found error with its message |
| `VehicleStore.Store.AddMileage` | index.ts:31-45 | on an absent id: NotFound and no change; on overflow: Overflow and no change. Otherwise the new mileage is the old one plus `miles`, `createdAt` is `now`, `id`, `model`, `version` and `depreciation` are unchanged, the returned record is the one stored and the one a following `GetVehicle` gives. Every other key keeps its record, the key set and key order are unchanged, no mileage decreases and the invariant holds |
| `VehicleStore.Store.CalculateDepreciation` | index.ts:47-62 | the same contract for the depreciation counter: the new depreciation is the old one plus the amount, `mileage`, `model`, `version` and `id` are unchanged, `createdAt` is `now`, other keys are untouched and no depreciation decreases |
| `VehicleStore.Store.FilterVehicles` | index.ts:65-73 | the key-order pass returns exactly the stored records that match the criteria, each once, as a subsequence of the scan; with the empty criterion it returns every record; the store is not modified |
| `VehicleStore.Store.FilterOfStore` | index.ts:65-73 | what the filter's result is in terms of the store: the matching scanned records, in key order, without repeated ids, and all of them for the empty criterion |
| `VehicleStore.Store.CopyEntries` | index.ts:87-90 | the copy loop fills a fresh array with every record in key order |
| `VehicleStore.Store.SortVehicles` | index.ts:86-92 | the result is ascending in the chosen numeric field, a permutation (same multiset) of all stored records, as long as the table, and holds exactly the stored records; the store is not modified |

## Left out

- The host runtime is not modelled: the `$query` marker, Candid
  serialization and the persistence of the table across restarts. The table
  is a Dafny map.
- The bounds the host map is created with (memory id 0, 44-byte keys,
  1024-byte values) are not modelled. No insert fails for size in the model.
- The concrete key order of the host's B-tree is not modelled. `keys` is a
  fixed enumeration that lists each key once and that the updates never
  change. `Put` places a new key last.
- The host clock `ic.time()` is not modelled. Its reading is the parameter
  `now`, and nothing is said about how it advances.
- The source has no creation operation, and its `uuid` import is unused.
  Records enter the table through `Put`, the map's insert.
- VehicleStore.Store.SortVehicles: sorting by `id`, `model` or `version` is
  not modelled. Subtracting two strings orders only strings that read as
  numbers, so no field-independent rule describes it.
- VehicleStore.Store.SortVehicles: the host engine's handling of the
  comparator's result is not modelled. For the `nat64` fields that result is
  a difference of two big integers. The model orders by the numeric values.
- VehicleStore.Store.SortVehicles: the model does not state how records with
  equal keys are ordered (the stability of the host's array sort).
  `SortByField` is an insertion sort, not the host's sort algorithm.
- Error messages are modelled as a kind (`NotFound`, `Overflow`). Only the
  not-found text follows the source. The overflow error and its text belong
  to the model.
