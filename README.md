# HR resource center: entity store and org chart, in Dafny

This project models the core of a small HR administration application.

- **The in-memory entity store `MemStorage`.** It keeps users, workers and permits in three JavaScript `Map`s keyed by id. Each table has its own id counter. The counters start at 1 and are post-incremented on every insert.
- **The org chart page's department grouping.** A `reduce` over the worker list builds one `{ name, workers }` group per department.
- **The org chart's supervisor lookup.** It is a single `find` by id.

Modules, one per source concern:

- `Wrappers` (wrappers.dfy): `Option` stands for `undefined`. `Result` stands for a value or a thrown `Error(message)`.
- `JsArrays` (js_arrays.dfy): `Array.prototype.findIndex` and `find`.
- `JsMaps` (js_maps.dfy): a JavaScript `Map<number, V>` as a value. It holds the entries and the keys in insertion order, which is the order `values()` lists them in. Setting a present key keeps its place; a key set again after a delete goes last. `set`, `delete`, `get` and `Array.from(m.values())` are functions on it.
- `Schema` (schema.dfy): the record shapes of shared/schema.ts, the insert shapes, `Partial<…>` patches, and the object spreads the store builds records with.
- `Storage` (storage.dfy): class `MemStorage`. It has three `OrderedMap` fields and three counter fields. Its methods reassign them, and each method says exactly what the new state is. `Valid()` is the invariant every method keeps. Every table's keys are at least 1, below its counter and increasing in listing order. Users and permits are stored under their own `id`.
- `OrgChart` (org_chart.dfy): the reduce as a function (`Departments`) and as the loop it is (`BuildDepartments`). `Grouped` is an independent characterisation of a correct grouping. `SupervisorOf` is the supervisor lookup.

The model follows the code, in which:
- `createUser` does not reject a duplicate username. `getUserByUsername` then returns the earliest registered one.
- `permitType` and `status` are free strings (varchar columns), not enums.
- Nothing checks that a `supervisorId` exists, differs from the worker's own id, or is acyclic.
- A worker patch may carry `id`, so a worker's record need not carry its key. The chart looks supervisors up by record id, so after a delete a worker patched to the deleted id takes over the dangling reference.
- Nothing guards status transitions.

## Model

| member | source | states |
|---|---|---|
| `JsArrays.FindIndex` | client/src/pages/org-chart-page.tsx:26 | the result is the first position whose element satisfies the predicate; none means no element does. The source calls `find` here; the model needs the position because the group found is then changed in place by `push` |
| `JsArrays.Find` | server/storage.ts:50-52 | returns `undefined` exactly when no element satisfies the predicate; otherwise the element at the first position that does |
| `JsMaps.Empty` | server/storage.ts:37-39 | a new Map is well formed and has no keys and no entries |
| `JsMaps.Set` | server/storage.ts:58 | `set` keeps the map well formed: keys distinct and listed exactly once |
| `JsMaps.Delete` | server/storage.ts:88 | `delete` keeps the map well formed |
| `JsMaps.Get` | server/storage.ts:46 | `m.get(k)`; no contract of its own; see `GetAfterSet` and `GetAfterDelete` |
| `JsMaps.Without` | server/storage.ts:88 | deleting a key drops exactly that key from the listing and nothing else; an absent key leaves the listing as it was |
| `JsMaps.WithoutKeepsIncreasing` | server/storage.ts:88 | deleting keeps the listing in increasing key order |
| `JsMaps.Values` | server/storage.ts:63-65 | `Array.from(values())` lists one value per key, in key insertion order |
| `JsMaps.GetAfterSet` | server/storage.ts:74 | reading a key just set gives the value set; other keys read as before |
| `JsMaps.GetAfterDelete` | server/storage.ts:88 | a deleted key reads as `undefined`; other keys read as before |
| `JsMaps.DeleteAbsent` | server/storage.ts:87-89 | deleting an absent key is a no-op |
| `JsMaps.ValuesAfterSetExisting` | server/storage.ts:82-83 | re-setting an existing key replaces its value in place; the listing keeps its length and order |
| `JsMaps.ValuesAfterSetNew` | server/storage.ts:74 | setting a new key appends its value at the end of the listing |
| `JsMaps.WithoutAt` | server/storage.ts:88 | deleting the key at position i removes exactly position i; the other keys keep their relative order |
| `JsMaps.ValuesAfterDelete` | server/storage.ts:87-89 | deleting the key at position i removes exactly position i from the `values()` listing; the other values keep their order |
| `Schema.NewUser` | server/storage.ts:57 | `{ ...insertUser, id, role: "employee" }`; no contract of its own; see `NewUserIsEmployee` |
| `Schema.NewWorker` | server/storage.ts:73 | `{ ...worker, id }`; no contract of its own; see `NewWorkerIgnoresInputId` |
| `Schema.NewPermit` | server/storage.ts:102-107 | `{ ...permit, id, createdAt, status: "pending" }`; no contract of its own; see `NewPermitIsPending` |
| `Schema.MergeWorker` | server/storage.ts:82 | `{ ...existing, ...patch }`; no contract of its own; see `MergeWorkerNothing`, `MergeWorkerDiff`, `MergeWorkerIdempotent`, `MergeWorkerThen`, `MergeWorkerCanChangeId` |
| `Schema.MergePermit` | server/storage.ts:116 | `{ ...existing, ...permit }`; no contract of its own; see `MergePermitKeepsIdentity`, `AnyStatusFollowsAny`, `MergePermitNothing` |
| `Schema.NewUserIsEmployee` | server/storage.ts:55-60 | a created user always gets the role "employee" and the issued id |
| `Schema.NewWorkerIgnoresInputId` | server/storage.ts:71-75 | the fresh id overrides any `id` in the insert; the created worker does not depend on the input id |
| `Schema.NewPermitIsPending` | server/storage.ts:100-110 | a created permit is "pending" whatever status the input carried; it gets the issued id and the clock reading |
| `Schema.MergeWorkerNothing` | server/storage.ts:82 | an empty patch leaves the worker unchanged |
| `Schema.MergeWorkerDiff` | server/storage.ts:82 | supplied fields overwrite and absent fields are kept: merging the diff of two records, or a full record as a patch, yields the target record |
| `Schema.MergeWorkerIdempotent` | server/storage.ts:82 | applying the same patch twice is the same as applying it once |
| `Schema.MergeWorkerThen` | server/storage.ts:82 | two successive updates equal one update with the later patch spread over the earlier |
| `Schema.MergeWorkerCanChangeId` | shared/schema.ts:38 | a worker patch may carry `id`, so a merged record's id can differ from the key it is stored under |
| `Schema.MergePermitKeepsIdentity` | shared/schema.ts:40-43 | a permit patch can change neither `id` nor `createdAt` |
| `Schema.AnyStatusFollowsAny` | server/storage.ts:112-118 | any status can replace any status, "approved" to "pending" included; nothing else changes |
| `Schema.MergePermitNothing` | server/storage.ts:116 | an empty patch leaves the permit unchanged |
| `Storage.IssuedAfterInsert` | server/storage.ts:71-75 | inserting under the counter's value uses an unused key and keeps the table's keys below the raised counter and increasing |
| `Storage.MemStorage.constructor` | server/storage.ts:36-42 | three empty tables; every counter is 1 |
| `Storage.MemStorage.GetUser` | server/storage.ts:45-47 | finds a user exactly when the id is a key, and the user found carries that id |
| `Storage.MemStorage.GetUserByUsername` | server/storage.ts:49-53 | `undefined` exactly when no user has the name; otherwise the stored user of that name with the smallest id, i.e. the earliest inserted |
| `Storage.MemStorage.CreateUser` | server/storage.ts:55-60 | the new user gets the counter's value as id and role "employee"; the id was unused; the counter goes up by one; the user is appended to the listing; no uniqueness check; other tables and counters unchanged |
| `Storage.MemStorage.GetWorkers` | server/storage.ts:63-65 | lists every stored worker once, in increasing key order, which is creation order |
| `Storage.MemStorage.GetWorker` | server/storage.ts:67-69 | finds a worker exactly when the id is a key |
| `Storage.MemStorage.CreateWorker` | server/storage.ts:71-76 | stores the input under a fresh, previously unused id equal to the old counter, which is raised by one; reading that id back gives the new record; it is appended to the listing; nothing else changes |
| `Storage.MemStorage.UpdateWorker` | server/storage.ts:78-85 | unknown id: returns the error "Worker not found" and changes nothing; known id: stores the merge of the existing record and the patch under the same key, keeps every key's position, and changes nothing else |
| `Storage.MemStorage.DeleteWorker` | server/storage.ts:87-89 | the id is no longer a key; an absent id is a no-op; the listing loses exactly the deleted position; every other worker, including any whose `supervisorId` names the deleted id, and every other table and counter stay as they were |
| `Storage.MemStorage.GetPermits` | server/storage.ts:92-94 | lists every stored permit once, in increasing id order |
| `Storage.MemStorage.GetPermit` | server/storage.ts:96-98 | finds a permit exactly when the id is a key, and it carries that id |
| `Storage.MemStorage.CreatePermit` | server/storage.ts:100-110 | stores a "pending" permit stamped with `now` under a fresh id from the permit counter; the counter goes up by one; nothing else changes |
| `Storage.MemStorage.UpdatePermit` | server/storage.ts:112-119 | unknown id: returns the error "Permit not found" and changes nothing; known id: stores the merge under the same key and position, and any supplied status is taken unconditionally |
| `Storage.IdsAreIssuedInSequence` | server/storage.ts:40-101 | from a fresh store, workers get ids 1, 2, 3 even when an input carries an id; a permit created in between gets id 1 (independent counters) |
| `Storage.PermitStatusRoundTrip` | server/storage.ts:100-118 | a permit asked for as "approved" is stored "pending"; it can then be approved and set back to "pending" |
| `Storage.DeleteLeavesDanglingSupervisor` | server/storage.ts:78-89 | after a delete, reading the id gives `undefined`, updating it gives "Worker not found", and a worker it supervised still names it |
| `Storage.ThreeWorkersThirdPatchedToFirstId` | server/storage.ts:71-85 | workers get ids 1, 2, 3 in turn; a patch carrying `id: 1` makes worker 3's record claim id 1 while it stays under key 3 |
| `Storage.DeleteFirstOfThree` | server/storage.ts:63-65 | deleting key 1 from keys 1, 2, 3 lists the two remaining workers in order |
| `Storage.PatchedIdTakesOverDanglingReference` | server/storage.ts:78-89 | after worker 3 is patched to id 1 and worker 1 is deleted, worker 2's supervisor lookup finds worker 3 instead of nobody |
| `OrgChart.FindGroup` | client/src/pages/org-chart-page.tsx:26 | `acc.find` by name, as a position because the group found is then pushed onto in place: the first group named after the department; none exactly when no group has that name |
| `OrgChart.AddToDepartments` | client/src/pages/org-chart-page.tsx:26-31 | the reduce callback; no contract of its own; see `StepGrouped`, which shows one call keeps a grouping correct |
| `OrgChart.Departments` | client/src/pages/org-chart-page.tsx:25-33 | the reduce itself; no contract of its own; see `DepartmentsGrouped`, `NoEmptyGroup`, `GroupSizesSum`, `GroupCountIsDepartmentCount` and `BuildDepartments` |
| `OrgChart.DepartmentNames` | client/src/pages/home-page.tsx:53 | `new Set(workers.map(w => w.department))`; no contract of its own; see `GroupCountIsDepartmentCount` |
| `OrgChart.BuildDepartments` | client/src/pages/org-chart-page.tsx:25-33 | the loop computes the reduce's result, and that result groups its input by department |
| `OrgChart.DepartmentsGrouped` | client/src/pages/org-chart-page.tsx:25-33 | the reduce yields pairwise distinct group names; each group holds exactly its department's workers in input order; every department gets a group; groups appear in order of first occurrence |
| `OrgChart.WorkerInExactlyOneGroup` | client/src/pages/org-chart-page.tsx:26-31 | in such a grouping, every input worker is in exactly one group, the one named after its department |
| `OrgChart.NoEmptyGroup` | client/src/pages/org-chart-page.tsx:28-30 | no group built by the reduce is empty |
| `OrgChart.GroupSizesSum` | client/src/pages/org-chart-page.tsx:25-33 | the group sizes sum to the number of input workers |
| `OrgChart.GroupCountIsDepartmentCount` | client/src/pages/home-page.tsx:53 | the chart has as many groups as the home page counts distinct departments |
| `OrgChart.GroupingExample` | client/src/pages/org-chart-page.tsx:25-33 | an empty list gives no groups; Eng, HR, Eng gives Eng with both its workers in order, then HR |
| `OrgChart.SupervisorOf` | client/src/pages/org-chart-page.tsx:52-54 | none when `supervisorId` is null or matches no worker's id; otherwise the first worker whose id equals it |
| `OrgChart.SupervisorIsFirstMatch` | client/src/pages/org-chart-page.tsx:52-54 | conversely, the first worker whose id equals `supervisorId` is the one the lookup returns |
| `OrgChart.SupervisorCycle` | client/src/pages/org-chart-page.tsx:52-54 | with two workers supervising each other, each lookup returns the other and stops |
| `OrgChart.NoSupervisorAfterDelete` | client/src/pages/org-chart-page.tsx:52-54 | in a table whose records carry their key as id, deleting a worker's supervisor makes the lookup of that worker find nobody; the store does not keep this for workers, see `PatchedIdTakesOverDanglingReference` |

## Left out

- HTTP routing, status codes and request validation (server/routes.ts): zod `safeParse` over schemas generated by drizzle is library code. Inputs are assumed to have the shapes the insert and patch datatypes give. The `Err` results stand for the 404 branches.
- The session store (`memorystore`) and authentication: foreign session and password machinery.
- `async`/`Promise`: the store's methods are modelled as synchronous, atomic calls.
- The clock: `new Date()` is the parameter `now` of `CreatePermit`. Dates of permits are opaque strings; `startDate <= endDate` is not checked by the code and not by the model.
- A key absent from an insert and a key present with `undefined` in a patch: an absent or null `supervisorId` is `None` in a stored record, and a patch field is either absent or carries a value (null included).
- Number precision: ids and counters are unbounded integers. JavaScript numbers lose precision above 2^53, which the model does not capture.
- The React pages, forms, sidebar, print view and query-cache invalidation: UI only. The home page's pending-permit filter is a one-line expression and is not modelled. Its distinct-department count is related to the chart by `GroupCountIsDepartmentCount`.
- Mutation of shared objects: the reduce pushes onto a group object held in the accumulator. The model replaces that group in the sequence, which is the same because nothing else holds the object.
