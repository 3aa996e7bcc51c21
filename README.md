# SQLite reference and shallow store for a go-git client, modelled in Dafny

`main.go` of macrat/cit gives go-git a storage backend. Objects, configuration and
the index stay in go-git's in-memory stores. References and shallow-clone
boundaries are kept in two SQLite tables, so they survive a restart:

- `reference(module, name, type, hash, target)`, keyed by `(module, name)`;
- `shallow(module, hash)`, keyed by both columns.

Every `Storage` value is a view holding a `module` string and the one shared
database handle. `Module(name)` returns a view of the same database for another
module, and every statement filters on the view's module.

The model has five modules:

- `Errors` (errors.dfy): the error values the code returns (`io.EOF`,
  `ErrReferenceNotFound`, `ErrInvalidType`, the hex decoding errors, the
  compare-and-set refusal, driver errors), plus `Option`, `Result` and `Outcome`.
  A Go `error` that is nil is `Pass`.
- `Hex` (hex.dfy): `hash2str` and `str2hash`. Decoding follows Go's `encoding/hex`
  rules. Both letter cases are accepted. An odd length is `ErrLength`, reported
  after the last character is checked. A shorter even-length string leaves the
  rest of the 20-byte hash zero. A 21st pair overruns the destination.
- `Refs` (refs.dfy): go-git's reference record (type, name, hash, target), the
  row `SetReference` writes, the decoding `ReferenceIter.Next` applies to a row,
  and what `ForEach` passes its callback.
- `Tables` (tables.dfy): the two tables as a `map` and a `set`. Each SQL
  statement is a function of the old table. The lemmas state the properties of
  the statements.
- `SqlStore` (store.dfy): the imperative part. Class `Db` holds the two tables.
  Class `Storage` holds the module and a reference to the shared `Db`. Class
  `ReferenceIter` is the cursor, kept as the sequence of rows it has yet to
  produce. Each method's `ensures` ties the new state or the result to the
  `Tables` functions. `SetShallow` works on a private copy of the table, which
  replaces the table only at COMMIT, so a failure part-way leaves nothing behind.
  `Shallow`, `IterReferences` and `ForEach` are loops with invariants.

`Scenarios` (scenarios.dfy) holds callers that use only the contracts. They show
set-then-get-then-count, isolation between two module views of one database, a
refused stale compare-and-set, a remove done twice, shallow replace and
read-back, rollback of a failed shallow replacement, and a full scan of a
module's references with a callback that never fails.

Behaviour of the code worth noting:

- A short even-length hash string is not an error: it decodes with zero fill.
- A bad hash in a `"hash"` row returns the hex decoding error itself.
- A symbolic reference's row stores `hash2str` of the zero hash, not an unused
  value.
- `CheckAndSetReference` returns the lookup's own error (`ReferenceNotFound` or
  a decoding error) when the expected reference cannot be read. It reports
  `ConcurrentModification` only when the hashes differ.
- The hashes compared are `Hash()` values. A stored symbolic reference has the
  zero hash, so it matches any expected reference whose hash is zero
  (`Tables.CasAgainstStored`).

## Model

| member | source | states |
|---|---|---|
| `Hex.FromHexChar` | main.go:24-28 | a character decodes to a nibble exactly when it is a hex digit of either case |
| `Hex.EncodeToString` | main.go:20-22 | the text has two characters per byte, all lower-case hex digits |
| `Hex.Hash2Str` | main.go:20-22 | a hash's text is 40 lower-case hex digits |
| `Hex.DecodeInto` | main.go:24-28 | decoding succeeds exactly for even-length all-hex input of at most two characters per byte of room; then it yields half as many bytes as characters; otherwise the error is a hex decoding error |
| `Hex.Str2Hash` | main.go:24-28 | str2hash succeeds exactly for even-length hex strings of at most 40 characters; bytes past the input stay zero; errors are hex decoding errors |
| `Hex.DecodeEncode` | main.go:20-28 | decoding the hex text of any byte string that fits gives back that byte string |
| `Hex.EncodeDecode` | main.go:20-28 | re-encoding the decoded bytes of lower-case hex text that fits gives back that text |
| `Hex.StrHashRoundTrip` | main.go:20-28 | str2hash(hash2str(h)) is h with no error |
| `Hex.HashStrRoundTrip` | main.go:20-28 | 40 lower-case hex digits decode, and hash2str of the result is the same text |
| `Hex.Hash2StrInjective` | main.go:20-22 | distinct hashes have distinct text |
| `Refs.EncodeRow` | main.go:138-146 | the tag is "hash" for a hash reference, "symbol" for a symbolic one, "invalid" for any other; the hash column is 40 characters; the target is the reference's target |
| `Refs.DecodeRow` | main.go:189-204 | a decoded reference has the row's name and a valid type; tag "hash" decodes to a hash reference exactly when the hash text decodes; a "hash" row yields the hash reference of its decoded hash or the hex decoder's own error; a "symbol" row yields the symbolic reference to its target column; any other tag is ErrInvalidType; no other errors occur |
| `Refs.RowRoundTrip` | main.go:194-204 | reading back the row written for a reference gives a hash reference with its hash, a symbolic reference with its target, or ErrInvalidType for the "invalid" tag |
| `Refs.FirstFailure` | main.go:207-218 | none exactly when the callback passes on every record; otherwise the index of a failing record with every earlier record passing |
| `Refs.FirstFailureAt` | main.go:207-218 | the first index where the callback fails, after passing everywhere before, is the one FirstFailure reports |
| `Tables.SetRef` | main.go:146 | INSERT OR REPLACE puts the reference's row under (module, name); every other key keeps its presence and row |
| `Tables.Lookup` | main.go:163-176 | ReferenceNotFound exactly when (module, name) has no row; a found reference carries the asked name |
| `Tables.RemoveRef` | main.go:225-228 | after DELETE, (module, name) is absent; every other key keeps its presence and row |
| `Tables.CountRefs` | main.go:230-240 | the count is zero exactly when no row has this module |
| `Tables.CasGuard` | main.go:150-159 | no expected reference always passes; with an expected reference it passes exactly when the stored reference reads back and has the expected hash; a readable reference with another hash fails with ConcurrentModification; an unreadable one fails with the lookup's own error (ReferenceNotFound for no row) |
| `Tables.SetThenLookup` | main.go:138-176 | after SetReference, Reference of the same name in the same module returns a hash reference with the same hash, a symbolic reference with the same target, or ErrInvalidType for another type |
| `Tables.WritesAreLocal` | main.go:146 | a set or a delete changes no lookup of any other (module, name), in particular none in another module |
| `Tables.RemoveThenLookup` | main.go:225-228 | after RemoveReference the name is not found, and removing again changes nothing |
| `Tables.CountAfterSet` | main.go:230-240 | a set adds one to the module's count for a new name and nothing for an existing one |
| `Tables.CountAfterRemove` | main.go:225-240 | a delete subtracts one from the module's count when the row existed and nothing otherwise |
| `Tables.CountIsModuleLocal` | main.go:231 | a set or delete in one module leaves another module's count unchanged |
| `Tables.CasAgainstStored` | main.go:150-161 | against a stored hash reference the check passes exactly when the expected hash equals it and otherwise refuses with ConcurrentModification; a stored symbolic reference matches only the zero hash; an "invalid" row gives ErrInvalidType |
| `Tables.ReplaceShallow` | main.go:90-106 | after DELETE then INSERT OR REPLACE, the module's rows are exactly the hex text of the commits, duplicates collapsed; every other module's rows are unchanged |
| `Tables.ReplaceLastWins` | main.go:83-111 | two replacements in a row leave what the second alone would leave |
| `Tables.ShallowTextDecodes` | main.go:121-133 | every row written for a commit decodes, to one of the written commits, whose text it is |
| `Tables.ShallowReadBack` | main.go:113-136 | decoding the replaced rows in any cursor order yields every written commit and nothing else, each exactly once |
| `SqlStore.Db.constructor` | main.go:48-53 | a newly created database has both tables empty |
| `SqlStore.ReferenceIter.constructor` | main.go:178 | the cursor starts with exactly the rows of its query |
| `SqlStore.ReferenceIter.Next` | main.go:184-205 | an exhausted cursor gives io.EOF and stays empty; otherwise the first row is consumed and decoded |
| `SqlStore.ReferenceIter.ForEach` | main.go:207-218 | one callback call per record in cursor order, a record that does not decode passing nil; with no callback failure, nil and the cursor is drained; otherwise the first failure's error, returned with the cursor just past that record |
| `SqlStore.Storage.constructor` | main.go:61-77 | NewModuleStorage gives a view of the given database scoped to the given module |
| `SqlStore.Storage.Module` | main.go:246-248 | a new view of the same database object for the named module; the database is not touched |
| `SqlStore.Storage.SetReference` | main.go:138-148 | the reference table becomes SetRef of the old one in this module; the shallow table is unchanged |
| `SqlStore.Storage.Reference` | main.go:163-176 | the result is Lookup in this module of the current table: the one row's decoding, or ReferenceNotFound when the cursor is empty |
| `SqlStore.Storage.CheckAndSetReference` | main.go:150-161 | the error is the guard's; when the guard passes the effect is exactly SetReference(new), and otherwise nothing is written |
| `SqlStore.Storage.RemoveReference` | main.go:225-228 | the reference table becomes RemoveRef of the old one; no error whether or not the row existed |
| `SqlStore.Storage.CountLooseRefs` | main.go:230-240 | the count of rows whose key has this module |
| `SqlStore.Storage.IterReferences` | main.go:220-223 | a fresh cursor listing each row of this module exactly once, as many rows as the count, each one the stored row of its name |
| `SqlStore.Storage.SetShallow` | main.go:83-111 | with no failing statement, the shallow table becomes ReplaceShallow of the old one; if BEGIN, DELETE, PREPARE or any INSERT fails, the error is returned and the table is as before; the reference table is never touched |
| `SqlStore.Storage.Shallow` | main.go:113-136 | success exactly when every row of the module decodes; then the result has one hash per row, the rows decoded in cursor order; otherwise the error of some row that does not decode |
| `SqlStore.NewStorage` | main.go:42-59 | the root view, module "", of the opened database; creating the tables if absent changes no row |
| `Scenarios.SetGetCount` | main.go:138-176 | on an empty store, set then get returns the written hash reference and the count is one |
| `Scenarios.ModuleIsolation` | main.go:246-248 | a write through one module's view is read through another view of that module, and another module's lookup and count are unchanged |
| `Scenarios.StaleCompareAndSet` | main.go:150-161 | a compare-and-set with a stale hash fails with ConcurrentModification and the stored reference still reads back unchanged |
| `Scenarios.RemoveTwice` | main.go:225-228 | two removes of one name leave it not found |
| `Scenarios.ShallowRoundTrip` | main.go:83-136 | after SetShallow(cs), Shallow succeeds and returns each commit of cs exactly once |
| `Scenarios.ShallowReplaced` | main.go:83-111 | after two SetShallow calls the module's boundary is the second set of commits only |
| `Scenarios.FailedShallowRollsBack` | main.go:83-111 | when the third of five INSERTs fails, both tables are as they were |
| `Scenarios.VisitAll` | main.go:207-223 | with a callback that never fails, ForEach over IterReferences makes one call per row of the module and returns nil; an empty module gives no call |

## Left out

- Object, configuration and index storage: go-git's `memory.ObjectStorage`,
  `ConfigStorage` and `IndexStorage` are embedded library types. Their code is
  not part of this model. That includes the fresh object maps each module view
  gets.
- Go's `encoding/hex` package is not part of this model. Its decoding rules are
  restated in `Hex.DecodeInto`.
- `Hex.DecodeInto`: works on characters, not on the UTF-8 bytes of the string
  that Go's `[]byte(str)` gives. For non-ASCII text both fail with an
  invalid-byte error. The model's error then carries the character, not the
  byte, and reports it at the character's position, not at a byte offset.
- `Hex.DecodeInto`: the runtime panic on a 21st hex pair is modelled as the
  error value `IndexOutOfRange`, not as a crash.
- SQLite and `database/sql`: `sql.Open`, the DDL, prepared statements and
  cursors become map and set updates. Opening or creating the schema cannot fail
  in the model.
- Driver errors of single statements are not modelled. This covers the queries
  and Exec calls of `SetReference`, `Reference`, `RemoveReference`,
  `CountLooseRefs`, `IterReferences`, `Shallow`, and `rows.Scan`. SQLite applies
  each such statement fully or not at all; the model takes the success path.
  Driver failures are modelled only inside `SetShallow`'s transaction, where
  all-or-nothing matters.
- `SqlStore.Storage.CountLooseRefs`: returns only the count. The source's
  `row == nil` branch cannot be taken (`QueryRow` never returns nil), and its
  scan error is a driver error. Neither error return is modelled.
- The error of `tx.Commit()` is ignored by the source, so a failed commit is not
  observable to the caller. In the model, COMMIT always succeeds.
- `Shallow` does not check `rows.Err()`, so a cursor failure would silently
  truncate the result. This is a driver error and is not modelled.
- Cursors are snapshots taken at query time. The row order is left open by the
  model, as SQLite leaves it open. Writes during an iteration are not modelled.
- The callback passed to `ForEach` is modelled as a pure function from the
  reference (or nil) to an error. Its side effects are not modelled.
- Compare-and-set atomicity: the read and the write are separate implicit
  transactions. The model runs them one after the other. No atomicity against
  other callers is claimed.
- `Close`, `ReferenceIter.Close` (which calls itself), `PackRefs` (a no-op) and
  `main()` (network clone, filesystem, printing) are I/O or resource plumbing.
