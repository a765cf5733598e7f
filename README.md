# EAV engine, API responder and policies — a Dafny model

This project models the core of a Laravel time-tracking API:

- **The Entity-Attribute-Value engine.** The `HasAttributeValue` trait gives a model (such as a
  project) dynamic attributes. Their definitions live in an `attributes` table (id, name, type,
  options), read once into a process-wide cache. Their values live in an `attribute_values` table,
  one row per (attribute, owner). The trait does the following:
  - validates and normalises values on write;
  - decodes them by type on read;
  - keeps the owner's loaded `attributeValues` collection in step with the table;
  - builds `whereHas` filters for queries.
- **The validation rules** that the `HasAttributeValueValidation` trait builds for those attributes.
- **The API responder's response builders.** These are a success and an error envelope with meta
  data and a status range check.
- **The exception conversion table** of `ConvertsExceptions`.
- **The timesheet and project authorisation policies.**

Modules:

| file | module | what |
|---|---|---|
| wrappers.dfy | Wrappers | `Option`, `Result` |
| json.dfy | Json | PHP arrays/values as JSON; `array_merge` on string keys |
| eav_types.dfy | EavTypes | attribute definitions, value rows, errors, the PHP built-ins the engine calls |
| eav_registry.dfy | EavRegistry | the definition cache and its lookups |
| eav_codec.dfy | EavCodec | validateAttributeValue and castEavValue |
| eav_rows.dfy | EavRows | the `attribute_values` rows and what the engine does to them |
| eav_store.dfy | EavStore | the table as a class updated in place |
| eav_filter.dfy | EavFilter | the query scopes as clauses, and which owners they select |
| eav_read.dfy | EavRead | what the getters return, and the stored value per name |
| eav_entity.dfy | EavEntity | a model using the trait: its state and the trait's operations |
| eav_validation.dfy | EavValidation | the rule lists |
| responses.dfy | Responses | the response builders |
| converts_exceptions.dfy | ConvertsExceptions | the conversion table |
| policies.dfy | Policies | the two policies |

Three kinds of state are updated in place, and each is a class:
- `EavRegistry.AttributeRegistry` is the static cache.
- `EavStore.ValueTable` is the `attribute_values` table.
- `EavEntity.Entity` is the model instance, holding its attributes and its loaded collection.

Two more classes follow the same pattern:
- `EavFilter.Query` is the query under construction.
- `Responses.ResponseBuilder` is one builder; the success and error subclasses appear as the two
  cases of its `body`.

`Entity.Valid()` is the invariant every operation keeps:
- the table's key (attribute, owner type, owner id) and its ids are unique;
- definition ids and names are unique;
- the loaded collection, written back as text, is exactly the owner's rows in the table.

Each state-changing operation's `ensures` states, on its error paths as well, either the new
stored value of every name (`Stored`) or that the table and the loaded collection are unchanged. The single-attribute writes also state the new table and what
`getEavAttribute`/`hasEavAttribute` now return (`Get`/`Has`). `setEavAttributes` states the
stored values through `BulkStored`, which `BulkStoredMeaning` reads as the last write of each name.

The PHP built-ins are uninterpreted functions in a `Platform` value:
- `strtotime`, `date('Y-m-d')`, `is_numeric`, the `(float)` cast;
- the text a float becomes in a text column.

The translator's catalogue is a map parameter.

## Model

| member | source | states |
|---|---|---|
| EavRegistry.AttributeRegistry.constructor | app/Support/EAV/HasAttributeValue.php:18 | the cache starts empty (null) |
| EavRegistry.AttributeRegistry.Initialize | app/Support/EAV/HasAttributeValue.php:31-36 | the cache is filled from the table only while it is null; a filled cache never changes |
| EavRegistry.AttributeRegistry.ById | app/Support/EAV/HasAttributeValue.php:41-46 | initialises the cache, then returns the first cached definition with that id |
| EavRegistry.AttributeRegistry.ByName | app/Support/EAV/HasAttributeValue.php:51-56 | initialises the cache, then returns the first cached definition with that name |
| EavRegistry.FindById | app/Support/EAV/HasAttributeValue.php:45 | null iff no definition has the id; otherwise the first definition carrying it |
| EavRegistry.FindByName | app/Support/EAV/HasAttributeValue.php:55 | null iff no definition has the name; otherwise the first definition carrying it |
| EavRegistry.IdsNamed | app/Support/EAV/HasAttributeValue.php:243-246 | an id is listed iff some definition with a requested name has it |
| EavRegistry.NamedIdListed | app/Support/EAV/HasAttributeValue.php:312-318 | the definition a requested name finds has its id in the plucked id list |
| EavRegistry.FindByOwnName | app/Support/EAV/HasAttributeValue.php:51-56 | with unique names, every definition is found by its own name |
| EavRegistry.FindByOwnId | app/Support/EAV/HasAttributeValue.php:41-46 | with unique ids, every definition is found by its own id |
| EavRegistry.DistinctNamesDistinctIds | app/Support/EAV/HasAttributeValue.php:51-56 | with unique definitions, two different names never resolve to the same id |
| EavCodec.Validate | app/Support/EAV/HasAttributeValue.php:415-443 | TEXT keeps the string; DATE needs a truthy strtotime and yields Y-m-d; NUMBER needs is_numeric and yields the float; SELECT needs loose membership in the options; each failure is its own error |
| EavCodec.Cast | app/Support/EAV/HasAttributeValue.php:384-407 | no definition or TEXT/SELECT: the raw value; NUMBER: the float or null; DATE: Y-m-d or null when strtotime is falsy |
| EavCodec.DecodeValidated | app/Support/EAV/HasAttributeValue.php:395-443 | a validated NUMBER reads back as its float, a TEXT or SELECT as the string written |
| EavCodec.DecodeValidatedDate | app/Support/EAV/HasAttributeValue.php:399-401 | a validated DATE reads back as its Y-m-d form when that form parses again to the same day |
| EavCodec.EpochDateDecodesToNull | app/Support/EAV/HasAttributeValue.php:399-401 | a date accepted on write whose Y-m-d form parses to timestamp 0 reads back as null |
| EavCodec.SelectWithoutOptionsRejects | app/Support/EAV/HasAttributeValue.php:430-436 | a SELECT with null or empty options rejects every value |
| EavRows.OwnerRows | app/Support/EAV/HasAttributeValue.php:23-26 | the morph-many relation holds only rows of the owner, from the table |
| EavRows.OwnerRowsComplete | app/Support/EAV/HasAttributeValue.php:23-26 | every row of the owner is in its relation |
| EavRows.FirstWithAttr | app/Support/EAV/HasAttributeValue.php:225-228 | null iff no row of the attribute; otherwise a row of it from the collection |
| EavRows.FirstKey | app/Support/EAV/HasAttributeValue.php:156-163 | the row updateOrCreate finds: null iff no row has the key |
| EavRows.FirstKeyIsOwnersFirst | app/Support/EAV/HasAttributeValue.php:156-169 | the row updateOrCreate finds is the owner's first row of that attribute in its relation |
| EavRows.RemoveIds | app/Support/EAV/HasAttributeValue.php:144 | exactly the rows whose id is not listed remain |
| EavRows.RemoveAttrs | app/Support/EAV/HasAttributeValue.php:290-299 | exactly the rows other than the owner's rows of those attributes remain |
| EavRows.RemoveOwned | app/Support/EAV/HasAttributeValue.php:352 | exactly the rows of other owners remain |
| EavRows.IdsWithAttrs | app/Support/EAV/HasAttributeValue.php:138-141 | an id is collected iff some row of a listed attribute carries it |
| EavRows.LoadRows | app/Support/EAV/HasAttributeValue.php:146 | a reloaded collection holds the table rows one for one, every value as a string |
| EavRows.ColumnRowsOfLoad | app/Support/EAV/HasAttributeValue.php:146 | rows read back from the table and written again are the same rows |
| EavRows.RemoveIdsIsRemoveAttrs | app/Support/EAV/HasAttributeValue.php:138-144 | deleting the ids of exactly the owner's rows of the attributes deletes those rows |
| EavRows.RemoveAttrsCount | app/Support/EAV/HasAttributeValue.php:335 | the delete count is the number of the owner's rows of those attributes |
| EavRows.RemoveOwnedCount | app/Support/EAV/HasAttributeValue.php:352 | the delete count is the size of the owner's relation |
| EavRows.RemoveOwnedLeavesNone | app/Support/EAV/HasAttributeValue.php:352 | after deleting all of an owner's rows its relation is empty |
| EavRows.RemoveAttrsOtherOwners | app/Support/EAV/HasAttributeValue.php:299 | deleting one owner's rows leaves every other owner's relation unchanged |
| EavRows.RemoveOwnedOtherOwners | app/Support/EAV/HasAttributeValue.php:352 | deleting all of one owner's rows leaves every other owner's relation unchanged |
| EavRows.RemoveAttrsOtherKeys | app/Support/EAV/HasAttributeValue.php:299 | deleting some attributes of an owner leaves every other key's row where it was |
| EavRows.UpsertOtherKeys | app/Support/EAV/HasAttributeValue.php:156-163 | updateOrCreate on one key changes no other key's row |
| EavRows.UpsertOtherOwners | app/Support/EAV/HasAttributeValue.php:156-163 | updateOrCreate for one owner leaves every other owner's relation unchanged |
| EavRows.UpsertKeepsUnique | app/Support/EAV/HasAttributeValue.php:156-163 | updateOrCreate keeps keys and ids unique and ids below the counter |
| EavRows.UpsertFindsSaved | app/Support/EAV/HasAttributeValue.php:156-163 | after updateOrCreate the key finds the saved row, which holds the new text |
| EavRows.RemoveAttrsKeepsUnique | app/Support/EAV/HasAttributeValue.php:299 | deleting an owner's attributes keeps keys and ids unique |
| EavRows.OwnerRowsUniqueAttrs | app/Support/EAV/HasAttributeValue.php:156-161 | the unique key means an owner has at most one row per attribute |
| EavRows.FirstWithAttrAfterUpdate | app/Support/EAV/HasAttributeValue.php:171-172 | assigning the first row of an attribute changes what that attribute reads and nothing else |
| EavRows.ReloadPutInStep | app/Support/EAV/HasAttributeValue.php:166-175 | a freshly loaded collection with the saved value put in stays in step with the table |
| EavStore.ValueTable.Relation | app/Support/EAV/HasAttributeValue.php:23-26 | a row is returned iff it is in the table and belongs to the owner |
| EavStore.ValueTable.UpdateOrCreate | app/Support/EAV/HasAttributeValue.php:156-163 | the row with the key gets the value, or a new row with the next id is created; the key then finds the saved row |
| EavStore.ValueTable.DeleteIds | app/Support/EAV/HasAttributeValue.php:144 | the listed ids go; the count is the number of rows removed |
| EavStore.ValueTable.DeleteOwned | app/Support/EAV/HasAttributeValue.php:352 | all of the owner's rows go; the count is the size of its relation |
| EavFilter.Lower | app/Support/EAV/HasAttributeValue.php:568 | strtolower maps each ASCII capital to its small letter and keeps every other character |
| EavFilter.LowerIdempotent | app/Support/EAV/HasAttributeValue.php:568 | lower-casing twice is lower-casing once |
| EavFilter.OperatorPred | app/Support/EAV/HasAttributeValue.php:563-627 | the predicate each operator alias selects, case-insensitively: the LIKE forms on the interpolated operand, comparisons against the operand's binding, in/not_in/between only with a (two-element) array and otherwise only the attribute constraint, unknown operators an equality with the binding |
| EavFilter.EmptyListComparesWithZero | app/Support/EAV/HasAttributeValue.php:579-594 | a comparison operator with an empty list compares the value with the 0 that `head([])` binds |
| EavFilter.OperatorIgnoresCase | app/Support/EAV/HasAttributeValue.php:568 | an operator and its lower-case form filter alike |
| EavFilter.NullFilterNeedsNullRow | app/Support/EAV/HasAttributeValue.php:615-618 | a null/is_null filter selects owners that have a row of the attribute whose value is NULL, not owners without a row |
| EavFilter.BindText | app/Support/EAV/HasAttributeValue.php:478 | a binding compares with nothing exactly when it is NULL; the `false` bound for an array without a leaf compares as "0" |
| EavFilter.Lookup | app/Support/EAV/HasAttributeValue.php:473 | absent iff no entry has the key; otherwise an entry stored under it |
| EavFilter.Flatten | app/Support/EAV/HasAttributeValue.php:478 | the flattened leaves of an array are empty iff no entry contributes one |
| EavFilter.FirstBinding | app/Support/EAV/HasAttributeValue.php:478 | the head of the leaves binds false iff there is none, NULL iff the first is null, and otherwise the first leaf's text |
| EavFilter.PlainPred | app/Support/EAV/HasAttributeValue.php:476-479 | null tests IS NULL; a scalar is an equality with its text; an array is an equality with the head of its flattened leaves |
| EavFilter.PlainMeaning | app/Support/EAV/HasAttributeValue.php:476-479 | the plain branch selects NULL values for null, the scalar's text for a scalar, "0" for an array without a leaf, and otherwise the first flattened leaf, so nothing when that leaf is null |
| EavFilter.ConditionClause | app/Support/EAV/HasAttributeValue.php:473-480 | an array whose operator and value entries are both present and non-null goes through the operator filter; anything else through the plain branch |
| EavFilter.EmptyArrayMatchesZero | app/Support/EAV/HasAttributeValue.php:473-479 | an empty array condition selects exactly the rows whose value is "0" |
| EavFilter.NullFirstLeafMatchesNothing | app/Support/EAV/HasAttributeValue.php:473-479 | a plain-branch array whose first flattened leaf is null selects no row |
| EavFilter.KeyOrderDecidesBinding | app/Support/EAV/HasAttributeValue.php:473-479 | with a null value, `[operator, value]` is an equality with the operator's text while `[value, operator]` selects no row |
| EavFilter.NullOperatorMatchesNothing | app/Support/EAV/HasAttributeValue.php:473-479 | an array with a null operator first selects no row, whatever its value |
| EavFilter.ConditionClauses | app/Support/EAV/HasAttributeValue.php:467-480 | an undefined name adds no clause; a defined one adds its condition's clause on its id |
| EavFilter.WhereEavClauses | app/Support/EAV/HasAttributeValue.php:466-481 | at most one clause per condition |
| EavFilter.WhereEavClausesSnoc | app/Support/EAV/HasAttributeValue.php:466-481 | the clauses of one more condition follow those already added |
| EavFilter.WhereEavClausesStep | app/Support/EAV/HasAttributeValue.php:467-480 | one more pass of the scopeWhereEav loop appends exactly the clauses of that condition after those already on the query |
| EavFilter.WhereEavMeaning | app/Support/EAV/HasAttributeValue.php:464-484 | an owner is selected iff, for every condition with a defined name, it has a row of that attribute satisfying the condition |
| EavFilter.UnknownNamesAddNothing | app/Support/EAV/HasAttributeValue.php:469-471 | conditions whose names are all undefined add no clause |
| EavFilter.UnknownNamesFilterNothing | app/Support/EAV/HasAttributeValue.php:469-471 | such conditions leave every owner's selection as it was |
| EavFilter.HasAnyClauses | app/Support/EAV/HasAttributeValue.php:525-540 | nothing when no name is defined; otherwise one clause over all the defined ids |
| EavFilter.HasAnyMeaning | app/Support/EAV/HasAttributeValue.php:525-540 | an owner is selected iff it has a row of some defined attribute among the names |
| EavFilter.HasAllClauses | app/Support/EAV/HasAttributeValue.php:545-558 | at most one clause per name |
| EavFilter.HasClause | app/Support/EAV/HasAttributeValue.php:510-518 | the clause for one name: none when the name has no definition, else one `whereHas` on that attribute id with any value |
| EavFilter.HasClauseMeaning | app/Support/EAV/HasAttributeValue.php:508-519 | an owner matches the clause of one name exactly when the name is defined and the owner has a row of it, and every owner matches when it is not |
| EavFilter.HasAllClausesSnoc | app/Support/EAV/HasAttributeValue.php:547-555 | the clause of one more name follows those already added |
| EavFilter.HasAllClausesStep | app/Support/EAV/HasAttributeValue.php:547-555 | one more pass of the scopeHasAllEavAttributes loop appends exactly that name's clause after those already on the query |
| EavFilter.HasAllMeaning | app/Support/EAV/HasAttributeValue.php:545-558 | an owner is selected iff it has a row of every defined attribute among the names |
| EavFilter.MatchesConcat | app/Support/EAV/HasAttributeValue.php:476 | successive `whereHas` clauses combine by conjunction |
| EavFilter.Query.WhereHas | app/Support/EAV/HasAttributeValue.php:517-519 | the clause is appended to the query |
| EavRead.WithEav | app/Support/EAV/HasAttributeValue.php:365-377 | `attribute_values` is gone; keys are the union; dynamic values win over same-named static ones |
| EavRead.Rejection | app/Support/EAV/HasAttributeValue.php:126-130 | an undefined name raises "does not exist"; otherwise the validation error of the value |
| EavRead.AllAcceptedNext | app/Support/EAV/HasAttributeValue.php:187-189 | one more accepted pair extends an accepted prefix |
| EavRead.BulkStoredMeaning | app/Support/EAV/HasAttributeValue.php:183-192 | with distinct names, after setEavAttributes each named attribute holds its own pair's outcome and every other name is unchanged |
| EavRead.BulkStoredLastWins | app/Support/EAV/HasAttributeValue.php:183-192 | setting pairs one after another leaves a name with the outcome of the last pair that names it |
| EavRead.BulkStoredUntouched | app/Support/EAV/HasAttributeValue.php:183-192 | a name that no pair mentions keeps the value the table held for it |
| EavRead.EavMapKeys | app/Support/EAV/HasAttributeValue.php:197-210 | the keys are exactly the names of the defined attributes that have a row |
| EavRead.EavMapAgreesAt | app/Support/EAV/HasAttributeValue.php:197-231 | per name: present iff hasEavAttribute, with the value getEavAttribute returns |
| EavRead.PutEntryAgrees | app/Support/EAV/HasAttributeValue.php:202-207 | adding a row of an attribute not yet in the collection keeps the getEavAttributes map in agreement with getEavAttribute and hasEavAttribute |
| EavRead.EavMapStep | app/Support/EAV/HasAttributeValue.php:202-207 | the getEavAttributes map of one more row is the map of the prefix with that row decoded under its name, when its attribute is known |
| EavRead.EavMapForStep | app/Support/EAV/HasAttributeValue.php:248-255 | the same for getEavAttributesByNames: a row outside the requested ids leaves the map unchanged |
| EavRead.EavMapAgrees | app/Support/EAV/HasAttributeValue.php:197-231 | getEavAttributes agrees with getEavAttribute and hasEavAttribute on every name |
| EavRead.IdsNamedOf | app/Support/EAV/HasAttributeValue.php:243-249 | a definition's id is among the plucked ids iff its name was requested |
| EavRead.ByNamesRestricts | app/Support/EAV/HasAttributeValue.php:236-258 | getEavAttributesByNames is getEavAttributes restricted to the requested names |
| EavRead.ByNamesKeys | app/Support/EAV/HasAttributeValue.php:236-258 | every key returned was requested |
| EavRead.PutSnapshotValue | app/Support/EAV/HasAttributeValue.php:168-175 | putting the saved value in the collection changes what that name reads and no other |
| EavRead.RemovedReadsNull | app/Support/EAV/HasAttributeValue.php:143-147 | after the delete and reload, a cleared name reads null and is absent |
| EavRead.AbsentReadsNull | app/Support/EAV/HasAttributeValue.php:143 | with no row to delete, the name already reads null and is absent |
| EavRead.IdsWithAttrEmpty | app/Support/EAV/HasAttributeValue.php:290-297 | the id list is empty iff the collection has no row of the attribute |
| EavRead.ReloadReadsAlike | app/Support/EAV/HasAttributeValue.php:146 | two tables with the same row for a name read the same after reloading |
| EavRead.UpsertStored | app/Support/EAV/HasAttributeValue.php:156-163 | updateOrCreate stores the text for its name and leaves every other name's stored value alone |
| EavRead.RemoveStored | app/Support/EAV/HasAttributeValue.php:290-299 | deleting an owner's attributes clears the names defined with them and no others |
| EavEntity.LoadedWellFormed | app/Support/EAV/HasAttributeValue.php:31-36 | the definitions a lookup sees are well formed whether or not the cache was filled |
| EavEntity.DeletingCollectedIds | app/Support/EAV/HasAttributeValue.php:138-144 | the ids collected from an in-step collection delete exactly the owner's rows of those attributes |
| EavEntity.ClearedStored | app/Support/EAV/HasAttributeValue.php:133-149 | clearing one name's rows clears its stored value and no other |
| EavEntity.ClearedStoredMany | app/Support/EAV/HasAttributeValue.php:312-343 | deleting the named attributes clears exactly those names' stored values |
| EavEntity.UndefinedReadsNull | app/Support/EAV/HasAttributeValue.php:217-221 | an undefined name reads null and is absent |
| EavEntity.ApplyEavOperatorFilter | app/Support/EAV/HasAttributeValue.php:563-627 | one clause over the attribute id with the operator's predicate is appended |
| EavEntity.WhereEavFilter | app/Support/EAV/HasAttributeValue.php:473-480 | the condition's clause on the attribute id is appended |
| EavEntity.AddWhereEavClauses | app/Support/EAV/HasAttributeValue.php:466-481 | the loop appends the clauses of the defined names in order, leaving the definitions as they were |
| EavEntity.AddConditionClause | app/Support/EAV/HasAttributeValue.php:467-480 | one pass of the scopeWhereEav loop adds the clause of that condition, or nothing for an undefined name, and leaves the definitions unchanged |
| EavEntity.AddHasClause | app/Support/EAV/HasAttributeValue.php:547-555 | one pass of the scopeHasAllEavAttributes loop, and the body of scopeHasEavAttribute, adds that name's clause and leaves the definitions unchanged |
| EavEntity.AddHasAllClauses | app/Support/EAV/HasAttributeValue.php:547-555 | the scopeHasAllEavAttributes loop adds one clause per defined name, in the order given |
| EavEntity.CollectEav | app/Support/EAV/HasAttributeValue.php:202-207 | the loop builds the name-to-decoded-value map of getEavAttributes |
| EavEntity.CollectEavFor | app/Support/EAV/HasAttributeValue.php:248-255 | the loop builds the same map over the rows of the requested ids |
| EavEntity.Entity.EnsureLoaded | app/Support/EAV/HasAttributeValue.php:61-66 | a loaded collection is kept; otherwise the owner's relation is loaded |
| EavEntity.Entity.Reload | app/Support/EAV/HasAttributeValue.php:146 | the collection is the owner's relation read again, in step with the table |
| EavEntity.Entity.ClearValue | app/Support/EAV/HasAttributeValue.php:133-150 | the owner's rows of the attribute go; the name reads null and absent; other stored values stay |
| EavEntity.Entity.WriteValue | app/Support/EAV/HasAttributeValue.php:152-177 | the row is upserted; the name reads the decoded value and is present; every other name reads and is stored as before |
| EavEntity.Entity.ReloadOtherName | app/Support/EAV/HasAttributeValue.php:166-175 | a name other than the one written reads alike after reloading the upserted table |
| EavEntity.Entity.SetEavAttribute | app/Support/EAV/HasAttributeValue.php:123-178 | succeeds (with true) iff the name is defined and the value validates; an error leaves the table and collection untouched; null deletes; otherwise upsert; only that name's value changes |
| EavEntity.Entity.SetEavAttributes | app/Support/EAV/HasAttributeValue.php:183-192 | succeeds iff every pair is accepted, mapping each name to true; otherwise the first rejected pair's error, with every earlier pair accepted; on success each name's stored value is the bulk outcome |
| EavEntity.Entity.SetEntry | app/Support/EAV/HasAttributeValue.php:187-189 | one pass of the setEavAttributes loop either raises the pair's rejection or extends the accepted prefix, leaving every stored value as the bulk write of the prefix gives it |
| EavEntity.Entity.GetEavAttributes | app/Support/EAV/HasAttributeValue.php:197-210 | keys are exactly the names hasEavAttribute accepts; each value is what getEavAttribute returns |
| EavEntity.Entity.GetEavAttribute | app/Support/EAV/HasAttributeValue.php:215-231 | null without loading for an undefined name; otherwise the decoded first row of the attribute, or null |
| EavEntity.Entity.GetEavAttributesByNames | app/Support/EAV/HasAttributeValue.php:236-258 | getEavAttributes restricted to the requested names |
| EavEntity.Entity.HasEavAttribute | app/Support/EAV/HasAttributeValue.php:263-275 | false without loading for an undefined name; otherwise whether the collection has a row of it |
| EavEntity.Entity.DeleteEavAttribute | app/Support/EAV/HasAttributeValue.php:280-307 | true iff a row of the name existed; its rows go and it reads null; other stored values stay |
| EavEntity.Entity.DeleteEavAttributes | app/Support/EAV/HasAttributeValue.php:312-343 | the owner's rows of the defined names go and their number is returned; those names read null; other stored values stay; 0 without loading when no name is defined |
| EavEntity.Entity.DeleteCollected | app/Support/EAV/HasAttributeValue.php:324-342 | deletes the owner's rows of the attributes through the collected ids and counts them |
| EavEntity.Entity.DeleteAllEavAttributes | app/Support/EAV/HasAttributeValue.php:348-360 | every row of the owner goes, the count is its relation's size, and every name reads null afterwards |
| EavEntity.Entity.DeletedSome | app/Support/EAV/HasAttributeValue.php:299-304 | a non-empty id list from an in-step collection deletes at least one row |
| EavEntity.Entity.LoadedRowsCounted | app/Support/EAV/HasAttributeValue.php:290-299 | a collection in step with the table holds a row of the attribute exactly when the table has rows of it for this owner to delete, so the deleted count is positive exactly when hasEavAttribute was true |
| EavEntity.Entity.ToArrayWithEav | app/Support/EAV/HasAttributeValue.php:365-377 | the serialised model with every present dynamic value overriding it and `attribute_values` removed |
| EavEntity.Entity.CastEavValue | app/Support/EAV/HasAttributeValue.php:382-408 | decodes by the given definition, else by the one the row's attribute id finds, else returns the raw value |
| EavEntity.Entity.GetAttribute | app/Support/EAV/HasAttributeValue.php:74-100 | a set non-null column wins; a relation name gives its own value; any other key reads the dynamic attribute |
| EavEntity.Entity.SetAttribute | app/Support/EAV/HasAttributeValue.php:109-118 | a fillable key sets the column only; any other key goes through setEavAttribute with its errors |
| EavEntity.Entity.ScopeWhereEav | app/Support/EAV/HasAttributeValue.php:464-484 | the query is narrowed to the owners satisfying every condition with a defined name |
| EavEntity.Entity.ScopeHasEavAttribute | app/Support/EAV/HasAttributeValue.php:508-519 | an undefined name adds nothing; otherwise one clause, and an owner then matches exactly when it matched before and has a row of the attribute |
| EavEntity.Entity.ScopeHasAnyEavAttribute | app/Support/EAV/HasAttributeValue.php:525-541 | narrows to owners with a row of some defined named attribute; nothing added when none is defined |
| EavEntity.Entity.ScopeHasAllEavAttributes | app/Support/EAV/HasAttributeValue.php:545-558 | narrows to owners with a row of every defined named attribute |
| EavValidation.BuildRuleForAttribute | app/Support/EAV/HasAttributeValueValidation.php:33-63 | the appending code yields the rule list of the attribute's type |
| EavValidation.RulesStartNullable | app/Support/EAV/HasAttributeValueValidation.php:37-38 | every list starts with `nullable` and has it once |
| EavValidation.RulesByType | app/Support/EAV/HasAttributeValueValidation.php:40-60 | the exact list for each of the four types |
| EavValidation.InRuleIffOptions | app/Support/EAV/HasAttributeValueValidation.php:55-59 | an `in` rule appears iff the type is SELECT with options, and it lists exactly those options |
| EavValidation.GetAttributeValueRules | app/Support/EAV/HasAttributeValueValidation.php:14-25 | the loop binds each definition's name to its rules, later definitions overriding |
| EavValidation.RulesByNameKeys | app/Support/EAV/HasAttributeValueValidation.php:20-22 | the keys are exactly the attribute names |
| EavValidation.RulesByNameOwn | app/Support/EAV/HasAttributeValueValidation.php:20-22 | with unique names, each name is bound to its own attribute's rules |
| Json.Merge | app/Support/ApiResponder/Responses/ResponseBuilder.php:41 | keys are the union; the later array wins on shared keys |
| Responses.ValidateStatusCode | app/Support/ApiResponder/Responses/SuccessResponseBuilder.php:80-85 | raises iff the status is outside the builder's range (success 100-399, error 400-599), with that status |
| Responses.StatusRangesPartition | app/Support/ApiResponder/Responses/ErrorResponseBuilder.php:84-89 | no status suits both builders, and every status from 100 to 599 suits one |
| Responses.DefaultMessage | app/Support/ApiResponder/Responses/ErrorResponseBuilder.php:39-42 | a truthy message is kept; otherwise the `errors.<code>` translation if there is one; otherwise null |
| Responses.OutputCommon | app/Support/ApiResponder/Responses/SuccessResponseBuilder.php:47-54 | both envelopes carry `success` as true or false, and `meta` iff meta was added |
| Responses.SuccessOutputShape | app/Support/ApiResponder/Responses/SuccessResponseBuilder.php:45-75 | the exact keys; the message; the data, or the page items plus pagination block for a paginated collection |
| Responses.ErrorOutputShape | app/Support/ApiResponder/Responses/ErrorResponseBuilder.php:60-79 | the exact keys; the error object is code and message, overridden by non-empty extra data |
| Responses.ResponseBuilder.Success | app/Support/ApiResponder/Responses/SuccessResponseBuilder.php:29-40 | data and message kept, status 200, no meta |
| Responses.ResponseBuilder.Error | app/Support/ApiResponder/Responses/ErrorResponseBuilder.php:31-45 | code kept, message defaulted, status 400, no meta or data |
| Responses.DefaultStatusesValid | app/Support/ApiResponder/Responses/SuccessResponseBuilder.php:29 | both default statuses pass their builder's own check |
| Responses.ResponseBuilder.Meta | app/Support/ApiResponder/Responses/ResponseBuilder.php:39-44 | meta is merged with later keys winning, and the same builder comes back |
| Responses.ResponseBuilder.Data | app/Support/ApiResponder/Responses/ErrorResponseBuilder.php:50-55 | the extra data is merged, a null on either side counting as empty |
| Responses.ResponseBuilder.SetStatusCode | app/Support/ApiResponder/Responses/ResponseBuilder.php:97-100 | the status is assigned before the check, so a rejected status stays |
| Responses.ResponseBuilder.SetStatus | app/Support/ApiResponder/Responses/ResponseBuilder.php:87-92 | the builder comes back iff the status is in range; otherwise the error for that status |
| Responses.ResponseBuilder.GetOutput | app/Support/ApiResponder/Responses/ErrorResponseBuilder.php:60-79 | the envelope built step by step is the one the shape lemmas describe |
| Responses.ResponseBuilder.Respond | app/Support/ApiResponder/Responses/ResponseBuilder.php:49-56 | without a status, the current one is used; a given status is set and checked first and an out-of-range one raises |
| ConvertsExceptions.Convert | app/Support/ApiResponder/Exceptions/ConvertsExceptions.php:37-48 | nothing is thrown iff the exception is an instance of no source; otherwise the first matching entry decides |
| ConvertsExceptions.ConvertAtFirstMatch | app/Support/ApiResponder/Exceptions/ConvertsExceptions.php:39-46 | the first matching entry's target is what is thrown |
| ConvertsExceptions.Without | app/Support/ApiResponder/Exceptions/ConvertsExceptions.php:55-65 | an entry survives iff its source is not excluded |
| ConvertsExceptions.Excluding | app/Support/ApiResponder/Exceptions/ConvertsExceptions.php:65 | the exception minus the excluded classes is an instance of exactly the other classes |
| ConvertsExceptions.ConvertWithout | app/Support/ApiResponder/Exceptions/ConvertsExceptions.php:53-66 | scanning the filtered table is scanning the full table while ignoring the excluded classes |
| ConvertsExceptions.DefaultSourcesDistinct | app/Support/ApiResponder/Exceptions/ConvertsExceptions.php:56-64 | no source class is listed twice |
| ConvertsExceptions.DefaultConversion | app/Support/ApiResponder/Exceptions/ConvertsExceptions.php:53-66 | an exception of exactly one non-excluded default source gets that source's target |
| ConvertsExceptions.SingleSourceConversion | app/Support/ApiResponder/Exceptions/ConvertsExceptions.php:56-64 | an exception of exactly one default source class, with nothing excluded, is converted by that source's entry |
| ConvertsExceptions.DefaultTargets | app/Support/ApiResponder/Exceptions/ConvertsExceptions.php:56-64 | the seven mappings: authentication, authorization, not found (twice), relation not found, throttling, and validation to its callback |
| ConvertsExceptions.ExcludedPassThrough | app/Support/ApiResponder/Exceptions/ConvertsExceptions.php:53-66 | an exception all of whose default sources are excluded is not converted |
| Policies.TimesheetViewAny | app/Policies/TimesheetPolicy.php:13-16 | always allowed |
| Policies.TimesheetView | app/Policies/TimesheetPolicy.php:18-21 | allowed iff the user owns the timesheet |
| Policies.TimesheetCreate | app/Policies/TimesheetPolicy.php:23-26 | always allowed |
| Policies.TimesheetUpdate | app/Policies/TimesheetPolicy.php:28-31 | allowed iff the user owns the timesheet |
| Policies.TimesheetDelete | app/Policies/TimesheetPolicy.php:33-36 | allowed iff the user owns the timesheet |
| Policies.TimesheetSingleOwner | app/Policies/TimesheetPolicy.php:18-21 | two different users never both see a timesheet, and its owner always does |
| Policies.ProjectViewAny | app/Policies/ProjectPolicy.php:14-17 | always allowed |
| Policies.ProjectView | app/Policies/ProjectPolicy.php:19-22 | allowed iff the user is attached to the project |
| Policies.ProjectCreate | app/Policies/ProjectPolicy.php:24-27 | always allowed |
| Policies.ProjectUpdate | app/Policies/ProjectPolicy.php:29-32 | allowed iff the user is attached to the project |
| Policies.ProjectDelete | app/Policies/ProjectPolicy.php:34-37 | allowed iff the user is attached to the project |
| Policies.HasAccess | app/Policies/ProjectPolicy.php:39-42 | true iff the user's id is among the project's users |
| Policies.AttachGrantsOnlyThatUser | app/Policies/ProjectPolicy.php:39-42 | attaching a user grants that user access and changes no one else's |
| Policies.EmptyProjectClosed | app/Policies/ProjectPolicy.php:14-42 | a project without users is closed to everyone, while listing and creating stay open |

## Left out

- The pending write buffer, the filter-string parser and cache invalidation are not modelled. The
  trait has none of them: writes go straight to the table and the cache is never cleared.
- SQL and Eloquent are not modelled as such. A query is a list of `whereHas` clauses, and owners are
  judged against the table's rows.
- SQL collation is not modelled: comparisons and `LIKE` are exact and by character code. `%` and
  `_` inside a `LIKE` operand are taken literally.
- `scopeOrderByEav` is not modelled, because ordering by a joined column is outside the row model.
- `detectAttributeType` is not modelled, because nothing in the trait calls it.
- `strtotime`, `date`, `is_numeric`, the float cast and float-to-text are left uninterpreted, as
  `Platform` functions.
- EavRegistry.FindByName: compares names with strict string equality. The lookup runs on the
  loaded definitions with `firstWhere`, whose loose `==` also pairs numeric strings of equal
  value (`"10"` and `"1e1"`); such names are not modelled as equal.
- EavRegistry.IdsNamed: the same gap for `whereIn('name', …)` on the loaded definitions, which
  compares loosely; numeric-string names of equal value do not select each other here.
- EavRead.EavMapAgrees: `getEavAttribute` and `getAttribute` find the row with a strict `===` on
  `attribute_id` (HasAttributeValue.php:93, :227), `hasEavAttribute` with the loose `contains`
  (:273). The two agree because ids are modelled as integers; a driver that returned
  `attribute_id` as a string would make the strict lookups miss, and that is not modelled.
- EavFilter.ConditionClause: requires that no condition on a defined name be an operator pair
  whose operator is an array. `applyEavOperatorFilter` declares `string $operator`, so PHP raises
  a TypeError there; the exception is not modelled.
- EavEntity.Entity.ScopeWhereEav: requires the same of its conditions (`TypedConditions`), as do
  EavFilter.WhereEavClauses, EavFilter.WhereEavMeaning and the methods of the loop.
- EavFilter.BindText: compares the 0 that PDO sends for `false` as the text "0", which is SQLite's
  rule for a TEXT column. MySQL would compare numerically, so 0 would equal every text that does
  not start with a number. The repository configures no database.
- EavFilter.Flatten: array conditions nest at most one level deep; deeper arrays are not modelled.
- EavFilter.Interpolate: a list under a LIKE operator is interpolated as "Array", as PHP does.
  Laravel's error handler turns PHP's "Array to string conversion" warning into an exception,
  and that exception is not modelled.
- Json.Merge: PHP array key order is not modelled, and neither is the renumbering of integer keys.
- EavEntity.Entity.GetAttribute: relation loading is not modelled. A relation name gives
  whatever its attribute entry holds, or null.
- EavEntity.Entity.SetAttribute: Eloquent mutators and casts on fillable keys are not modelled,
  and values are strings or null. Arrays, booleans and objects as attribute values are not
  modelled.
- EavEntity.Entity: does not model an unsaved owner, whose id is still null.
- EavEntity.Entity.SetEavAttributes: requires distinct names, as the keys of a PHP array always
  are.
- EavCodec.Cast: a NUMBER written as a float reads back in the same request as that float, and
  after a reload as the float of its stored text. The model keeps both, but does not relate
  float-to-text and text-to-float.
- Concurrency between requests is not modelled: each operation runs alone against the table.
- OAuth, controllers, form requests and the exception `Handler` are not part of this model.
- `renderResponse` is not part of this model, and neither are the response factory, `toArray`,
  `toJson` and `toCollection`. A response is the triple that the factory receives.
- Policies.TimesheetView: PHP's strict `===` also compares types. The model compares ids as
  numbers only.
- ConvertsExceptions.Convert: the class hierarchy is not modelled. An exception is given as the
  set of classes it is an instance of.
- ConvertsExceptions.Convert: targets are not constructed. The model returns the class that is
  thrown, or the validation failure with its validator.
