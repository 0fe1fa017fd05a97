# Repository, service and processor helpers — a Dafny model

This project models the framework-independent helpers of a Laravel
application's base classes:

- the repository helpers (`app/Repositories/Repository.php`): reconciling a
  has-many relation with a list of desired children (`syncHasManyByKey`),
  replacing a relation's children (`replaceHasMany`), chunked bulk
  insertion that skips rows colliding with a unique index
  (`insertOrIgnore`), and the two numeric clamps (`normalizeNumber`,
  `getValueOrZero`);
- the service helpers (`app/Services/Service.php`): the retry loop
  `tryWithRetries` and the `ensure` guard;
- the conditional dispatchers (`app/Processors/Processor.php`):
  `processIfNotEmpty`, `processIfExists`, `processIfTruthy`,
  `processIfInstanceOf`, `eachIfArray` and `eachIfCollection`.

Files:

- `php.dfy` (module `Php`): the PHP values the helpers look at, `empty()`,
  `isset`, the integer array-key cast and the `(string)` form in which
  `array_diff_assoc` compares values.
- `chunking.dfy` (module `Chunking`): `array_chunk` and `Collection::chunk`.
- `repository.dfy` (module `Repository`): a relation is the map from child
  id to stored record plus an auto-increment allocator, held by the class
  `HasMany`; a table with one unique column is the class `Table`. The
  reconciliation is defined on values (`Visit`, `Walk`, `Reconcile`) and the
  class methods, which loop as the PHP code does, are proved to compute it.
- `repository_lemmas.dfy` (module `RepositoryLemmas`): what the
  reconciliation, the replacement and insert-ignore promise, proved about
  those value-level definitions.
- `services.dfy` (module `Services`): the callback is a function from the
  call number to `Ok(v)` or `Err(e)`; sleeps are counted, not performed.
- `processors.dfy` (module `Processors`): each dispatcher is a function from
  the response map to the list of values the callback receives, in order.

The docblock of `syncHasManyByKey` (app/Repositories/Repository.php:38-46)
says that every existing child absent from the data is deleted and that
`$items` represent exactly the children of the relation. The code keeps
that promise only in part, and the model follows the code:

- An item whose non-empty key names no existing child is silently dropped:
  it is neither created, updated nor retained
  (`RepositoryLemmas.UnknownKeyDropped`).
- Children absent from the data are deleted only for a chunk size of at
  least 1: `Collection::chunk` yields no chunk for a smaller size, so
  nothing is deleted and stale children survive. The model states both
  cases (`RepositoryLemmas.RetainsExactlyNamedAndCreated`).
- A second call with the same items writes nothing when every item carries
  a key and no two items name the same child
  (`RepositoryLemmas.ReconcileIdempotent`); that condition is sufficient,
  not necessary (items naming one child with equal fields are idempotent
  too). It cannot be dropped altogether: an item without key creates a new
  child on every call, and two items naming one child with different
  fields save it again on every call.

The default arguments of the source are named constants:
`Repository.SyncChunkSize` (30, `syncHasManyByKey`),
`Repository.InsertChunkSize` (30, `insertOrIgnore`),
`Repository.ReplaceChunkSize` (50, `replaceHasMany`),
`Repository.NormalizeDefault` (0, `normalizeNumber`),
`Services.DefaultMaxAttempts` (3) and `Services.DefaultSleepMs` (100) of
`tryWithRetries`. The methods take these as parameters, as the PHP
functions do; the lemmas about the defaults use the constants.

## Model

| member | source | states |
|---|---|---|
| Repository.Visit | app/Repositories/Repository.php:58-69 | one iteration of the foreach: the allocator advances by at most one and `$syncedIds` grows by at most one id |
| Repository.Walk | app/Repositories/Repository.php:57-70 | the foreach over all items: the existing ids stay, the allocator advances by at most one per item, and `$syncedIds` grows by at most one id per item |
| Repository.Reconcile | app/Repositories/Repository.php:52-77 | only existing ids are deleted, none for a chunk size below 1, and the allocator advances by at most one per item |
| Repository.FilledSettles | app/Repositories/Repository.php:61-62 | `Differs` models `array_diff_assoc($item, $attributes)` being non-empty; after `fill($item)` it no longer holds, no column is lost, the key column keeps the stored id, and columns the item does not mention keep their values |
| Repository.CreatedFields | app/Repositories/Repository.php:66-67 | the created record holds the item's fields and the fresh id in the key column |
| RepositoryLemmas.CreatedSurvives | app/Repositories/Repository.php:66-77 | the k-th created id is nextId + k, was not held before, survives the deletions and holds the k-th item without key |
| Repository.InsertIgnoring | app/Repositories/Repository.php:30-32 | the old rows stay in front, and at most one row is added per item |
| Repository.Replacement | app/Repositories/Repository.php:102-104 | the created children's ids lie in nextId .. nextId + n - 1 |
| Chunking.CollectionChunk | app/Repositories/Repository.php:74 | `Collection::chunk` yields no chunk for a size below 1; otherwise the chunks, of 1 to size ids each, give back the list in order |
| Repository.HasMany.SyncHasManyByKey | app/Repositories/Repository.php:50-79 | the new rows, allocator, saved and created ids are those of `Reconcile` on the old rows; the delete batches each hold 1 to chunkSize ids, number ceil(n / chunkSize), and together name every deleted id exactly once; rows stay keyed |
| Repository.HasMany.UpdateOrCreate | app/Repositories/Repository.php:55-70 | the foreach loop leaves exactly the state `Walk` defines (rows, allocator, `$syncedIds`, saves, creates), and rows stay keyed |
| Repository.HasMany.DeleteInChunks | app/Repositories/Repository.php:72-77 | the doomed ids are removed for a positive chunk size and nothing is removed otherwise; the batches are `DeletesInBatches` of exactly the removed ids; allocator unchanged |
| Repository.ChunkedIds | app/Repositories/Repository.php:72-76 | `Collection::chunk` of the listed ids is empty for a size below 1 and otherwise covers exactly the listed ids, once each, in ceil(n / size) batches of 1 to size ids |
| Repository.HasMany.ReplaceHasMany | app/Repositories/Repository.php:95-106 | for a chunk size below 1 nothing changes (`array_chunk` throws and the transaction rolls back); otherwise every old child is gone and the relation is exactly the items under consecutive fresh ids, which are returned in order |
| Repository.HasMany.CreateInChunks | app/Repositories/Repository.php:102-104 | `createMany` per chunk adds exactly `Replacement` of all the items under the next fresh ids, whatever the chunk size |
| Repository.HasMany.CreateMany | app/Repositories/Repository.php:103 | one create per item, in order, each under the next id, adding exactly `Replacement` of the chunk |
| Repository.ReplacementAppend | app/Repositories/Repository.php:102-104 | creating a then b equals creating a and then b under the ids that follow, so chunking does not change the children created |
| Repository.KeyedReplacement | app/Repositories/Repository.php:102-104 | children created under consecutive fresh ids keep every row keyed by its id below the allocator |
| RepositoryLemmas.ReplacementHoldsExactlyItems | app/Repositories/Repository.php:95-106 | after the replacement the relation's ids are exactly nextId .. nextId + n - 1, and id nextId + i holds item i with its key column set to that id |
| Repository.Table.InsertOrIgnore | app/Repositories/Repository.php:22-33 | empty items: nothing happens; a chunk size below 1 with items: `array_chunk` throws and nothing is inserted; otherwise the statements are `array_chunk` of the items and the table becomes `InsertIgnoring` of all the items; the unique index is kept |
| Repository.InsertIgnoringAppend | app/Repositories/Repository.php:28-32 | inserting the chunks one after another equals inserting their concatenation |
| Repository.InsertIgnoringKeepsUnique | app/Repositories/Repository.php:31 | insert-ignore never puts two rows with the same non-null unique value in the table |
| RepositoryLemmas.InsertIgnoringShape | app/Repositories/Repository.php:24-32 | the old rows stay in front, only given items are added, at most one row per item, and every item is either inserted or collides with a row of the table |
| RepositoryLemmas.InsertIgnoringDuplicatePair | app/Repositories/Repository.php:31 | two items sharing a unique value, inserted into an empty table, leave exactly the first one |
| Chunking.Chunk | app/Repositories/Repository.php:28 | `array_chunk` for a positive size: pieces of 1 to n elements, all but the last exactly n, which laid end to end give back the list |
| Chunking.ChunkCount | app/Repositories/Repository.php:28 | there are ceil(len / n) pieces |
| Chunking.CeilDiv | app/Repositories/Repository.php:74 | the piece count r is the least with len <= r * n |
| RepositoryLemmas.SeventyFiveInBatchesOfFifty | app/Repositories/Repository.php:74-76 | 75 ids with chunk size 50 make two delete statements, of 50 and 25 ids |
| Repository.WalkKeepsKeyed | app/Repositories/Repository.php:57-70 | the foreach keeps every row keyed by its id, never removes a row and never lowers the allocator |
| RepositoryLemmas.WalkAllocates | app/Repositories/Repository.php:66-68 | the foreach takes one fresh id per item without key, consecutively from the allocator, and adds no other row |
| RepositoryLemmas.WalkCreates | app/Repositories/Repository.php:66-68 | the i-th item without key is stored under the i-th fresh id with its key column set to that id |
| RepositoryLemmas.WalkSynced | app/Repositories/Repository.php:57-70 | `$syncedIds` holds exactly the existing ids some item names plus the created ids, and only named ids are saved |
| RepositoryLemmas.WalkUnsaved | app/Repositories/Repository.php:61-63 | a row that is never saved keeps its stored record |
| RepositoryLemmas.RetainsExactlyNamedAndCreated | app/Repositories/Repository.php:53-77 | the deleted ids are exactly the existing ids no item names (none for a chunk size below 1); afterwards the relation holds the surviving old ids and the created ids, all keyed |
| RepositoryLemmas.NamedChildTakesItemFields | app/Repositories/Repository.php:58-65 | an existing child named by an item (and by no later item) is not deleted, and every field of that item reads back the same from it afterwards |
| RepositoryLemmas.UnsavedChildUntouched | app/Repositories/Repository.php:61-63 | only named children are saved, and a surviving child that is not saved keeps its record |
| RepositoryLemmas.CreatesOnePerNewItem | app/Repositories/Repository.php:66-68 | each item without key creates exactly one new child, under a fresh id not held before, holding the item's fields, and that child is not deleted |
| RepositoryLemmas.UnknownKeyDropped | app/Repositories/Repository.php:58-68 | an item whose non-empty key names no existing child changes nothing: the outcome equals that of the items without it |
| RepositoryLemmas.NoDifferenceNoWrites | app/Repositories/Repository.php:61-63 | keyed items that differ from no child they name cause no save, no create and no change |
| RepositoryLemmas.WalkSavesOnlyOnDifference | app/Repositories/Repository.php:57-70 | per child: a stored child that no item naming it differs from is never saved by the foreach and keeps its record, whatever the other items do |
| RepositoryLemmas.SavesOnlyOnDifference | app/Repositories/Repository.php:58-77 | per child on the whole sync: such a child is not saved, and if it survives the deletes it keeps its record |
| RepositoryLemmas.ReconcileIdempotent | app/Repositories/Repository.php:50-79 | with keyed items naming distinct ids, a second reconciliation saves, creates and deletes nothing and leaves the rows and allocator as the first left them |
| RepositoryLemmas.UpdateCreateDeleteExample | app/Repositories/Repository.php:50-79 | children 1 "A" and 2 "B" with items (id 1, "A2") and ("C"): child 1 becomes "A2", child 3 is created for "C", child 2 is deleted |
| RepositoryLemmas.InsertDefaultStatements | app/Repositories/Repository.php:22-32 | with the default chunk size 30, 75 rows go in three statements of 30, 30 and 15 rows |
| RepositoryLemmas.ReplaceDefaultBatches | app/Repositories/Repository.php:95-104 | with the default chunk size 50, 75 items are created in two `createMany` calls of 50 and 25 |
| Repository.NormalizeNumber | app/Repositories/Repository.php:138-141 | the value when it is a number above 0, the default otherwise |
| Repository.GetValueOrZero | app/Repositories/Repository.php:149-152 | never negative; positive exactly when the value is a number above 0, and then the value itself |
| RepositoryLemmas.ValueOrZeroIsNormalizedToZero | app/Repositories/Repository.php:138-152 | on integers and null, `getValueOrZero` agrees with `normalizeNumber` with default 0 |
| Repository.ListIds | app/Repositories/Repository.php:72 | the ids to delete, listed once each in some order |
| Php.Empty | app/Processors/Processor.php:20 | `empty()` never holds for an object, so an empty `Collection` is not empty |
| Php.EmptyScalarPrintsFalsy | app/Repositories/Repository.php:58 | a scalar is empty exactly when it prints as "" or "0" |
| Php.ArrayKey | app/Repositories/Repository.php:58-59 | integers, booleans and canonical digit strings always name an integer key; a key can be missing only for null or a string that is not a canonical digit string (the body also gives canonical negative decimals such as "-4" their key; the contract states the direction the reconciliation proofs use) |
| Php.StringForm | app/Repositories/Repository.php:61 | an integer printed for `array_diff_assoc` reads back as that integer key |
| Php.ArrayKeyPrintsAsKey | app/Repositories/Repository.php:61-65 | a key naming id n compares equal, under `(string)`, to the stored `Int(n)`, so the key column never counts as a difference |
| Services.RunFrom | app/Services/Service.php:24-34 | from `$attempts` failures on, the loop makes at least one more call and at most max(1, maxAttempts) in all, sleeping once after each call but the last |
| Services.Retry | app/Services/Service.php:22-35 | at least one and at most max(1, maxAttempts) calls, and one sleep fewer than calls |
| Services.RunFromShape | app/Services/Service.php:24-34 | from `$attempts` failures on: earlier calls failed, the last call's value is returned, its error rethrown only once the allowance is spent, and sleeps = calls - 1 |
| Services.DefaultRetry | app/Services/Service.php:22 | with the defaults (3 attempts, 100 ms) there are at most 3 calls, no rejected sleep, and a callback that always fails has its third error rethrown after 2 sleeps |
| Services.TryWithRetries | app/Services/Service.php:22-35 | the do-while loop ends as `Retry` says: same result, same number of calls, same number of sleeps |
| Services.RetryShape | app/Services/Service.php:24-34 | at least one and at most max(1, maxAttempts) calls; every call but the last failed; the last call's value is returned on success; the last error is rethrown only after all allowed attempts; sleeps = calls - 1 |
| Services.SleepRejectedExactly | app/Services/Service.php:32 | `usleep` of a negative duration ends the run exactly when the sleep time is negative and a failure is not the last allowed attempt |
| Services.FailTwiceThenSucceed | app/Services/Service.php:22-35 | a callback failing twice then succeeding, with 3 attempts allowed, returns its value after 3 calls and 2 sleeps |
| Services.EnsureAsWritten | app/Services/Service.php:66-71 | throws exactly when the condition is false; a closure is called for the message; a string naming no function is the message itself |
| Services.Ensure | app/Services/Service.php:66-71 | throws exactly when the condition is false; a closure is called only then and gives the message; a string is the message |
| Services.EnsureAgreesUnlessTextNamesFunction | app/Services/Service.php:69 | the code and the intended guard agree on every message except a string naming a global function |
| Services.EnsureCallsNamedFunction | app/Services/Service.php:69 | `ensure(false, 'time')` throws with the result of `time()`, not with "time" |
| Processors.ProcessIfNotEmpty | app/Processors/Processor.php:18-23 | one call with the value exactly when the key holds a non-empty value, none otherwise |
| Processors.ProcessIfExists | app/Processors/Processor.php:34-39 | one call with the value exactly when the key is present, null included |
| Processors.ProcessIfTruthyAsWritten | app/Processors/Processor.php:50-55 | one call exactly when the key holds a non-empty value or true; "Undefined array key" is raised exactly when the key is absent |
| Processors.ProcessIfTruthy | app/Processors/Processor.php:50-55 | at most one call, only with the value of a present key |
| Processors.TruthyIsNotEmpty | app/Processors/Processor.php:52 | the `=== true` disjunct adds nothing: `processIfTruthy` fires exactly as `processIfNotEmpty` does |
| Processors.TruthyAsWrittenWarnsOnAbsentKey | app/Processors/Processor.php:52 | as written it dispatches like `processIfNotEmpty` but raises the warning on an absent key |
| Processors.TruthyAsWrittenOnEmptyResponse | app/Processors/Processor.php:52 | on an empty response the code raises the warning where no call and no warning are intended |
| Processors.ProcessIfInstanceOf | app/Processors/Processor.php:67-72 | one call exactly when the key is set to an object of the class (or a subclass or implementation) |
| Processors.EachIfArray | app/Processors/Processor.php:83-90 | one call per element, in order, when the value is an array; none otherwise |
| Processors.EachUntilFalse | app/Processors/Processor.php:104 | `Collection::each` calls on a prefix of the elements, in order, stopping right after the first call that returns false, whatever the callback bases its answer on |
| Processors.EachIfCollection | app/Processors/Processor.php:101-106 | no call unless the key is set to a `Collection`; then the calls of `each` on its elements |
| Processors.EachWithoutFalseSeesAll | app/Processors/Processor.php:103-104 | a callback that never returns false sees every element of the collection, in order |
| Processors.StopsOnSecondOfEqualElements | app/Processors/Processor.php:104 | the callback's answer depends on the call, not the element: of three equal elements, a callback stopping on its second call sees two |
| Processors.ExistsCoversNotEmptyAndInstanceOf | app/Processors/Processor.php:18-72 | whenever `processIfNotEmpty` or `processIfInstanceOf` fires, `processIfExists` fires with the same value |
| Processors.FloatFiresUnlessZero | app/Processors/Processor.php:18-55 | a float fires `processIfExists`; `processIfNotEmpty` and `processIfTruthy` fire exactly when it is not 0.0, and `processIfTruthy` as written raises no warning for it |
| Processors.NullFiresOnlyExists | app/Processors/Processor.php:18-106 | a key holding null fires `processIfExists` with null and no other dispatcher |

## Left out

- `firstOrCreateSafe` (app/Repositories/Repository.php:122-129): its point is catching a unique-key race between concurrent writers, which a single-threaded model cannot show.
- `validateOrFail` (app/Services/Service.php:49-56): a wrapper over Laravel's validator rule language, which is not part of this model.
- Database transactions, SQL statements, partial failures and concurrent writers: every helper is one atomic method on in-memory state; the rollback of `replaceHasMany` when `array_chunk` throws is modelled as "nothing changes".
- Repository.HasMany.SyncHasManyByKey: the key is the relation's auto-increment primary key; a `$key` naming some other column is not modelled.
- Repository.HasMany.SyncHasManyByKey: mass assignment (`$fillable`, guarded columns), attribute casts and the column types of the database are not modelled; `fill()` copies every item field except the key column, which keeps the stored id (the item's key names that id).
- Repository.HasMany.SyncHasManyByKey: item fields and stored columns are scalars (null, booleans, integers, strings); floats are not modelled, and neither is an array-valued field (a JSON-cast column, say), for which the `(string)` cast of `array_diff_assoc` raises "Array to string conversion" and the whole sync rolls back.
- Repository.HasMany.SyncHasManyByKey: the columns Eloquent writes itself are not part of the record: the parent's foreign key, which `create` sets and `fill()->save()` would rewrite if an item carried another parent's, and the `created_at`/`updated_at` timestamps that `create` and `save()` set. Items are assumed not to carry these columns; an item naming another parent, or carrying `updated_at`, would move the child out of the relation or save it on every call, which the model does not show.
- Repository.HasMany.ReplaceHasMany: the parent's foreign key and the timestamps that `createMany` sets are not part of the record, and items are assumed not to carry them; "exactly the items" is meant for the remaining columns.
- Repository.CreatedFields: the created record is the item plus the key column only; the foreign key and the `created_at`/`updated_at` columns Eloquent adds are not modelled.
- Repository.FilledSettles: "columns the item does not mention keep their values" leaves out `updated_at`, which `save()` rewrites.
- Repository.HasMany.UpdateOrCreate: the key column is taken as not mass-assignable: `create($item)` ignores an item's key and stores the child under the next auto-increment id.
- Repository.HasMany.ReplaceHasMany: the key column is taken as not mass-assignable: an item's own key is ignored and every child gets the next auto-increment id; a model that allows assigning the key would store the item under it.
- Repository.HasMany.CreateMany: the key column is taken as not mass-assignable: `createMany` ignores an item's key and stores each child under the next auto-increment id.
- Repository.HasMany.ReplaceHasMany: `chunkById` pages through the old children and deletes them one by one; the model deletes them all in one step, since no observer of intermediate states is modelled.
- Repository.Table.InsertOrIgnore: the unique index is on one column, compared by `(string)` form; composite indexes, collations and the other errors an `INSERT IGNORE` swallows are not modelled.
- Repository.ListIds: the order in which the query returns the ids to delete is left open (any order).
- Repository.NormalizeNumber: restricted to integers and null; floats and numeric strings (`is_numeric`) are not modelled.
- Repository.GetValueOrZero: restricted to integers and null; floats and PHP's comparison of strings with 0 are not modelled.
- Services.TryWithRetries: `usleep` is a counted event, not a delay; integer overflow of `$sleepMs * 1000` (PHP integers are 64-bit) is not modelled.
- Services.Ensure: a closure, or a function named by the string, that itself throws is not modelled.
- Processors.EachUntilFalse: the callback also receives each element's key in Laravel; the model records only the values it is called with, and takes its answer on each call as given.
- Processors.ProcessIfNotEmpty: response floats are finite reals; `NAN` and `INF`, which `empty()` treats as non-empty, are not modelled.
- Processors.ProcessIfInstanceOf: class names are compared exactly; PHP compares them case-insensitively.
- Integer width in general: ids, counters and clamps are unbounded integers.

## Findings

| source | as written | input that shows it | evidently intended | confidence | as-written member | corrected member |
|---|---|---|---|---|---|---|
| app/Processors/Processor.php:52 | when `empty()` holds, `$response[$key] === true` reads the key even if it is absent, raising "Undefined array key" (an `ErrorException` under Laravel's error handler) | `processIfTruthy([], 'data', $cb)` | an absent key means no call and no warning, as in the other dispatchers | high, not executed | Processors.ProcessIfTruthyAsWritten (shown by Processors.TruthyAsWrittenOnEmptyResponse) | Processors.ProcessIfTruthy (proved by Processors.TruthyIsNotEmpty) |
| app/Services/Service.php:69 | `is_callable($message)` also holds for a string that names a global function, so that function is called and its result becomes the message | `ensure(false, 'time')` | a string is the message itself; only a closure is called | high, not executed | Services.EnsureAsWritten (shown by Services.EnsureCallsNamedFunction) | Services.Ensure (proved by Services.EnsureAgreesUnlessTextNamesFunction) |
