# MockReduce map/reduce emulation, modelled in Dafny

MockReduce emulates MongoDB's map/reduce for unit tests. The Dafny project
here models the two engines at the core of it.

**The map phase (`MockReduce.Map`, src/map.js).** A run resets the instance
and calls the user's map function once per record. Every `emit(key, value)`
the map function makes is logged and filed into a group under a string key.
The map function reaches `emit` through the wrapper `_exposeEmit` installs
(src/map.js:114-116), which answers nothing; only a direct call of the
method `emit` (src/map.js:94-103) answers the entry `{_id: key, value}`.
`Mapper.Emit` models the method, and `Mapper.EmitAll`, the map function's
calls, drops its answer as the wrapper does.

An id's key is the JSON text of its canonical form. The canonical form
(`_sortKey`) rebuilds every object with its property names sorted, at every
depth (except for a property named `__proto__`, see "Left out"). A group is shown under the first id that produced its key. The
grouped data is answered in the order `Object.keys` lists the keys.

**The reduce phase (`MockReduce.Reduce`, src/reduce.js).** A run resets the
instance and maps every `{_id, value: [...]}` item to `{_id, value}`:

- a list of two or more values goes to the reduce function;
- a one-value list passes through as its element;
- an empty list yields `undefined`.

**Modules.** They follow the program's structure:

- `Values`: the key/value universe. `Val` is null, boolean, integer, string
  or object. An object is a list of named fields in creation order.
  `WellFormed` says no object repeats a property name. `Equiv` is equality
  up to property order at every depth.
- `StringOrder`: the default order of `Array.prototype.sort` on property
  names.
- `Canonical`: `_sortKey`. `Canon` is its model.
- `JsonText`: `JSON.stringify` on these values. It comes with a reader that
  inverts it, so the key text determines the canonical value.
- `GroupKey`: `_getKey`. `GetKey` is its model.
- `PropertyOrder`: the own-property order of an ordinary object. This is
  OrdinaryOwnPropertyKeys, section 10.1.11.1 of ECMA-262. Array-index names
  (canonical numerals up to 2^32 - 2) come first, in ascending numeric order.
  The other names follow in creation order.
- `Grouping`: `_addMappedDataToItsIdGroup` as a fold, `GroupAll`, over the
  emissions. `Describes` is an independent declarative description of the
  resulting table: keys, values, shown ids and order. The fold is proved to
  meet it, and the description is proved to determine the table.
- `Mapper`: `emit`, `run`, `_resetState`, `getEmits` and `getMappedData` on
  a `MapState` value that replaces the instance's mutable fields.
- `Reducer`: `run`, `_resetReducedData` and `getReducedData` on a
  `ReduceState` value.
- `Scenarios`: the repository's own map tests (spec/src/map-spec.js), derived
  from the general lemmas.

**What the model replaces.**

- The map function is a parameter: a pure function from one record to the
  list of `(key, value)` pairs it passes to `emit`, in call order.
- The reduce function is a pure function parameter. `Reducer.Run` also
  returns a trace of the arguments it is applied to.
- `getEmits`, `getMappedData` and `getReducedData` are plain projections of
  the state. What they answer is stated in the contracts of `Mapper.Run` and
  `Reducer.Run`.

**Two consequences of the code worth knowing.**

- The grouped data is not simply in first-seen order. `getMappedData` lists
  it via `Object.keys` (src/map.js:136), so groups whose id is an
  array-index number come first, in ascending order.
  `Mapper.MappedDataOrder` states this and `Scenarios.IndexKeysAscend` shows
  it. Order is first-seen only when no id is such a number
  (`Mapper.MappedDataFirstSeen`).
- `emit` stays exposed if the map function throws. `concealAll` is called
  after the loop with no `finally` (src/map.js:69-84). Exceptions are not
  modelled (see below).

## Model

| member | source | states |
|---|---|---|
| Mapper.ResetState | src/map.js:39-60 | A fresh or reset map instance has an empty emission log and a group table that is the grouping of that log. |
| Mapper.Emit | src/map.js:94-103 | `emit(key, value)` answers `{_id: key, value}`. It appends exactly that entry to the log and leaves the rest of the log unchanged. The table stays the grouping of the log. |
| Mapper.EmitAll | src/map.js:110-117 | The `emit` calls of one map-function call extend the log by exactly their emissions, in call order. The table stays the grouping of the log. |
| Mapper.Run | src/map.js:69-84 | Whatever the instance held before, the log afterwards is this run's emissions: each record's, in record order. The table is their grouping, and the answer equals `getMappedData()`. |
| Mapper.AllEmissionsAppend | src/map.js:73-81 | With the map function a pure function of the record, the log of a run over `a + b` is the log over `a` followed by the log over `b`. |
| Mapper.GetEmits | src/map.js:125-127 | `getEmits()` answers the log. It has as many entries as the groups hold values in all. |
| Mapper.MappedData | src/map.js:134-137 | `getMappedData` turns the table into a list holding every group of the table exactly once. |
| Mapper.GetMappedData | src/map.js:134-137 | Every group `getMappedData()` answers holds at least one value. |
| Mapper.EntriesKeyedByShownId | src/map.js:146-156 | Every group sits under the key of the id it is shown with. |
| Mapper.MappedDataOrder | src/map.js:134-137 | The groups of array-index ids (integers 0 .. 2^32 - 2) come first, in ascending id order. The other groups follow in first-seen order, and none of them has such an id. |
| Mapper.MappedDataFirstSeen | src/map.js:134-137 | When no id is an array-index number, the groups are answered in the order their keys were first emitted. |
| Mapper.SingleGroup | src/map.js:146-156 | Emissions whose ids are all equivalent form one group. It is shown under the first id and holds every value in emission order. |
| Grouping.Find | src/map.js:149 | Looking a key up in the table finds the entry with that key, or reports that none has it. |
| Grouping.AddToGroup | src/map.js:146-156 | Filing one emission adds a property exactly when its key is not in the table yet, and otherwise keeps the number of groups. If no group was empty before, none is after. |
| Grouping.AddToGroupStep | src/map.js:146-156 | Filing one more emission into a table that the declarative description fits gives a table that the description fits for the longer emission list. |
| Grouping.GroupAll | src/map.js:146-156 | Filing emissions one by one into an empty table gives at most one group per emission, and no group without a value. |
| Grouping.GroupAllDescribes | src/map.js:146-156 | After filing emissions one by one, the table meets four conditions. Its keys are distinct and are exactly the emitted keys. Each group holds the values emitted with its key, in order. Each group shows the id of the first emission with its key. Groups are ordered by their key's first emission. |
| Grouping.DescribesUnique | src/map.js:146-156 | The four conditions above determine the table, so the fold is the only table that meets them. |
| Grouping.TotalCountsEmissions | src/map.js:146-156 | The groups partition the emissions: their sizes add up to the number of emissions. |
| Grouping.EmissionHasGroup | src/map.js:146-156 | Every emission lands in some group. |
| Grouping.SameGroupIffEquiv | src/map.js:146-156 | Two emissions with well-formed ids land in the same group exactly when their ids are equal up to property order. |
| GroupKey.GetKey | src/map.js:158-170 | The key is never empty. It starts with `{` exactly for an object id and with `"` exactly for a string id. |
| GroupKey.KeyReadsBack | src/map.js:168-170 | The key is JSON text that reads back, in full, as the canonical form of the id. |
| GroupKey.SameKeyIffEquiv | src/map.js:168-170 | Two well-formed ids get the same key string exactly when they are equal up to property order, at every depth. |
| GroupKey.PrimitiveKeys | src/map.js:158-170 | Two primitive ids share a key only when they are the same primitive. The number 42 and the string "42" are kept apart. |
| GroupKey.KeyArrayIndex | src/map.js:168-170 | A key names an array-index property exactly when the id is an integer from 0 to 2^32 - 2. That integer is then the key's index. |
| Canonical.Canon | src/map.js:184-197 | `_sortKey` returns a primitive unaltered, and an object as an object with the same number of properties. |
| Canonical.SortFields | src/map.js:187 | Sorting the property names keeps every property with its value. |
| Canonical.SortFieldsSorted | src/map.js:187 | The sorted names strictly increase. |
| Canonical.CanonFixesCanonical | src/map.js:185 | `_sortKey` returns a primitive, or any already sorted key, unaltered. |
| Canonical.CanonIsCanonical | src/map.js:184-197 | `_sortKey` yields a well-formed key whose names are sorted at every nesting level. |
| Canonical.CanonEquiv | src/map.js:184-197 | `_sortKey` keeps every property name and every value, up to property order. The code drops a property named `__proto__` (see "Left out"). |
| Canonical.CanonicalUnique | src/map.js:184-197 | Two sorted keys that are equal up to property order are identical. |
| Canonical.CanonIdempotent | src/map.js:184-197 | Applying `_sortKey` twice gives the same result as applying it once. |
| Canonical.CanonEqualIffEquiv | src/map.js:184-197 | Two well-formed keys canonicalise identically exactly when they are equal up to property order. This holds whatever the original field order. |
| JsonText.Serialize | src/map.js:169 | `JSON.stringify` writes a non-empty text. It starts with `{` exactly for an object and with `"` exactly for a string. |
| JsonText.ReadWrittenValue | src/map.js:169 | Reading back the JSON text of a value, followed by any delimiter, recovers the value and the rest of the text. |
| JsonText.SerializeInjective | src/map.js:169 | Different values have different JSON texts. |
| PropertyOrder.EnumerationOrderSpec | src/map.js:136 | `Object.keys` lists every property once. Array-index names come first, ascending. The rest follow in creation order. |
| PropertyOrder.SortByIndexAscending | src/map.js:136 | The array-index properties come out in ascending numeric order. |
| PropertyOrder.EnumerationWithoutIndices | src/map.js:136 | Without array-index names, `Object.keys` lists properties in creation order. |
| Reducer.ResetReducedData | src/reduce.js:21-23 | A fresh or reset reduce instance holds no reduced data. |
| Reducer.GetReducedData | src/reduce.js:61-63 | `getReducedData()` answers the instance's reduced data. It has no contract of its own: what it answers after a run is stated by `Reducer.Run`. |
| Reducer.ReduceItem | src/reduce.js:39-50 | A reduced entry keeps the item's id. Its value is `undefined` exactly when the item's value list is empty. |
| Reducer.CallsOf | src/reduce.js:43-45 | The reduce function is called only with `(id, values)` of items holding two or more values, and for every such item. |
| Reducer.Run | src/reduce.js:32-54 | Whatever the instance held before, the answer has one entry per item, in order, with the item's id. Two or more values give the reduce function's result. One value passes through. No values give `undefined`. The trace of reduce-function arguments lists exactly the items with two or more values, in order. `getReducedData()` equals the answer. |
| Reducer.MapThenReduceDefined | src/reduce.js:43-45 | Reducing what a map run answers never yields `undefined`, because every mapped group holds at least one value. |
| Scenarios.OneKeyGroupsAll | spec/src/map-spec.js:63-67 | A map function emitting `(42, value)` per record gives one group under 42 with every value in record order. |
| Scenarios.NestedIdsShareKey | spec/src/map-spec.js:69-88 | Nested object ids differing only in property order share a key. An id without `y` does not. |
| Scenarios.NestedIdsGrouped | spec/src/map-spec.js:69-88 | The nested-ids test yields two groups. The first is shown under the first id and holds the first and third values. The second holds the second value. |
| Scenarios.IndexKeysAscend | src/map.js:136 | `emit(2, a)` followed by `emit(1, b)` lists the group of 1 before the group of 2. |
| Scenarios.NumberAndStringKeysDiffer | src/map.js:158-170 | The number 42 and the string "42" get different keys. |

## Left out

- The `Scope` collaborator and `_exposeEmit` are not modelled. In the model, the emit capability is the map function's list of pairs, and `expose`/`concealAll` have no counterpart.
- The `this` binding of `mapFunction.apply(record)` is not modelled. The map function receives the record as its argument.
- src/installer.js, which patches a database driver, is not part of this model.
- Exceptions thrown by the map or reduce function are not modelled, and neither is the state a failed run leaves behind.
- Floating-point numbers, `NaN`, `Infinity`, `undefined`, functions, dates and arrays are not modelled as ids or values.
  - Numbers are unbounded integers.
  - The exponent notation `JSON.stringify` uses from 1e21 up is not modelled.
  - In the code, an array id is rebuilt as a plain object, so `[1, 2]` and `{"0": 1, "1": 2}` share a key. Properties whose value is `undefined` vanish from the key. Neither case can arise in the model.
- `Canon` sorts names by character. JavaScript's default sort compares UTF-16 code units. The two differ only for characters outside the Basic Multilingual Plane, and either order is a canonical form, so grouping is the same.
- `Canon` keeps the sorted order for every property name. In a JavaScript object, integer-like property names of the rebuilt key are enumerated first. This changes the key text but not which ids share it, since both are fixed functions of the sorted fields. The model uses the plain sorted order.
- The `for ... in` / `hasOwnProperty` filtering of the record list and of the reduce input is not modelled. Inputs are sequences, traversed in order.
- Mapper.AllEmissionsAppend: map and reduce functions are modelled as pure functions of their arguments. In the code they are arbitrary JavaScript: a stateful closure, a function that mutates its record, or one that reads the instance could make a record's emissions depend on the other records.
- Aliasing is not modelled. The model answers values where the code answers shared objects.
  - `getEmits()` and the `value` arrays of `getMappedData()` are the instance's own arrays. A later direct `emit` call pushes into them. A later `run` does not, since `_resetState` and `_resetReducedData` assign fresh containers (src/map.js:50, src/map.js:59, src/reduce.js:22).
  - An emitted id or value object is shared by the log and its group. If a map function mutates an id object after emitting it, the logged entry and the group's shown `_id` change, but the key already computed does not.
- Canonical.Canon: keeps a property named `__proto__`. `_sortKey` rebuilds each property with `o[key] = …` on a fresh object (src/map.js:191-194), which for `__proto__` calls the prototype setter instead of creating a property, so the code drops it from the key. For example, ids parsed from the JSON texts `{"__proto__":1}` and `{"__proto__":2}` (an object literal would not create the property) share the key `{}` in the code but not in the model.
- Reducer.ReduceItem: a non-array `value` (e.g. a string, whose `length` and `[0]` JavaScript also accepts) is not modelled. Items always hold a list.
