# Migration engine of go-api-server, modelled in Dafny

This project models the schema-migration engine of `internal/migrate/migrate.go`
and the `removeTopStruct` helper of `http/http.go`.

The engine works on a directory of paired `<ts>_<name>.up.sql` /
`<ts>_<name>.down.sql` files and keeps a `migrations(id, migration, batch)`
history table inside the target database. It has five parts:

- `SetName` parses a migration name. It fills in the file names, the template
  kind (`createType`, `alterType` or 0) and the table name.
- `Create`/`createFile` writes the two skeleton files. `getSQL` picks the
  CREATE/DROP/ALTER template and replaces its first `tb_name` with the table.
- `Up` finds the up files that have no record yet. It applies each one in its
  own transaction and records it under the batch after the latest.
- `getMigrationRecords` reads the history.
- `Down` checks the name and does nothing else.

Files:

- `go_strings.dfy` (module `GoStrings`): the functions of Go's `strings`
  package the code calls, `Split`, `Index`, `Replace(…, 1)` and `TrimRight`,
  together with `TrimSuffix` (with `HasSuffix`), the function the corrected
  key uses. Each comes with a contract, or lemmas beside it, that fix its result.
- `migrate_spec.dfy` (module `MigrateSpec`): the value-level engine. It covers
  name parsing, the templates, key derivation, the pending filter (intended and
  as written), the Scan rule the history read depends on, and the apply loop as a function
  `ApplyAll` with its lemmas.
- `migrate.dfy` (module `Migrate`): the stateful engine.
  - `Directory` is the migration directory, a map from file name to contents.
  - `Database` holds the history rows, the committed scripts and the server's
    answer to each script.
  - `Tx` is one transaction. Its work reaches the database only at `Commit`.
  - `Migrator` has the source's fields and its methods `SetName`, `Create`,
    `CreateFile`, `ReadRecords`, `Up` and `Down`. They update those fields or
    the directory and database in place. `ReadRecordsAsWritten` is the history
    read as the code has it; `ReadRecords` is its corrected form, which `Up` uses.

  Each state-changing method is tied to the functions of `MigrateSpec`. The
  lemmas there state what the source promises about them.
- `http.dfy` (module `Http`): `removeTopStruct` as a loop that builds a new map.

The database's behaviour is an input. `Database.answer` says how the server
answers the transaction that runs a given script: it commits, or it refuses
the script, the history insert or the commit. The `Glob` result is the
`listing` parameter of `Up`, in any order; the model does not rely on
Glob's sorted order.

Two details of `SetName` that the model keeps as the code has them:

- A shaped name `<x>_<t>_table` whose action `x` is neither `create` nor
  `alter` keeps the earlier template kind rather than becoming generic. The
  code still sets the table name to `t`.
- The code never resets the kind. A kind left by an earlier `SetName` call
  survives, as `StaleKindSurvives` shows.

## Model

| member | source | states |
|---|---|---|
| `GoStrings.Split` | internal/migrate/migrate.go:49 | splitting on `_` gives at least one piece; no piece holds `_`; joining the pieces with `_` gives the name back |
| `GoStrings.SplitJoin` | internal/migrate/migrate.go:49-50 | split inverts join on underscore-free pieces, so a name's pieces are determined by the name |
| `GoStrings.Index` | http/http.go:97 | the result is -1 exactly when the substring never occurs; otherwise it occurs there and at no earlier position |
| `GoStrings.ReplaceFirst` | internal/migrate/migrate.go:218 | a text in which the placeholder does not occur is returned unchanged |
| `GoStrings.ReplaceFirstAt` | internal/migrate/migrate.go:218 | at the first occurrence of the placeholder, exactly that occurrence is replaced and the text before and after it is kept |
| `GoStrings.ReplaceFirstAfter` | internal/migrate/migrate.go:218 | when the first occurrence follows a prefix that cannot start one, only that occurrence is replaced and the text on both sides is kept |
| `GoStrings.TrimRight` | internal/migrate/migrate.go:118 | the result is a prefix of the input; its last character is not in the cut set; every removed character is |
| `GoStrings.TrimRightIs` | internal/migrate/migrate.go:118 | those three facts determine TrimRight's result uniquely (the longest trailing run is removed) |
| `GoStrings.TrimSuffix` | internal/migrate/migrate.go:118 | the fix for line 118, which the code does not call: with the suffix present, result followed by suffix is the input; without it, the input is returned |
| `MigrateSpec.FileNamesDistinct` | internal/migrate/migrate.go:47-48 | the up and down file names are never empty and never equal, whatever the name |
| `MigrateSpec.TableOf` | internal/migrate/migrate.go:46-56 | no ensures: the table name SetName stores, the middle piece of a shaped name and the name itself otherwise; `ShapedNameParsed` and `UnshapedNameKept` give its value |
| `MigrateSpec.KindOf` | internal/migrate/migrate.go:50-55 | no ensures: the template kind SetName stores, given the kind held before; `ShapedNameParsed`, `UnshapedNameKept` and `StaleKindSurvives` give its value |
| `MigrateSpec.ShapedNameParsed` | internal/migrate/migrate.go:49-57 | for `<action>_<table>_table` with underscore-free parts: the table is `<table>`; the kind is create for `create`, alter for `alter`, and the previous kind for any other action |
| `MigrateSpec.TableShapedDecomposes` | internal/migrate/migrate.go:49-56 | conversely, a name recognised as shaped is exactly `<action>_<table>_table` with underscore-free action and table |
| `MigrateSpec.UnshapedNameKept` | internal/migrate/migrate.go:46-57 | any other name keeps the previous kind and becomes the table name itself |
| `MigrateSpec.StaleKindSurvives` | internal/migrate/migrate.go:50-56 | after `create_users_table` then `add_email`, the kind is still create-table and the table is `add_email` |
| `MigrateSpec.GetSQL` | internal/migrate/migrate.go:205-237 | no ensures: getSQL with its three templates; `GetSQLCreate`, `GetSQLAlter` and `GetSQLEmpty` give its result for kind 0, create and alter in every direction |
| `MigrateSpec.GetSQLCreate` | internal/migrate/migrate.go:205-237 | the create kind gives `CREATE TABLE IF NOT EXISTS <table> (…)` for up and `DROP TABLE IF EXISTS <table>` for down |
| `MigrateSpec.GetSQLAlter` | internal/migrate/migrate.go:214-233 | the alter kind gives `ALTER TABLE <table>` for either direction |
| `MigrateSpec.GetSQLEmpty` | internal/migrate/migrate.go:205-221 | kind 0, or the create kind with a direction other than up/down, gives the empty text |
| `MigrateSpec.KeyAsWritten` | internal/migrate/migrate.go:117-118 | no ensures: the key as line 118 computes it, a cut-set trim whose result TrimRight's contract fixes; `KeyAsWrittenTruncates` and `KeyAsWrittenRecordedIff` give its effect |
| `MigrateSpec.Key` | internal/migrate/migrate.go:117-118 | no ensures: the corrected key, removal of the exact `.up.sql` suffix as TrimSuffix's contract states; `KeyOfUpFileName` and `KeyRemovesFromPending` give its effect |
| `MigrateSpec.KeyOfUpFileName` | internal/migrate/migrate.go:47 | the key of a generated up file is `<ts>_<name>`, whatever the name |
| `MigrateSpec.KeyAsWrittenTruncates` | internal/migrate/migrate.go:118 | the as-written key of `20240101000000_add_email.up.sql` is `20240101000000_add_emai`; the suffix-removing key is `20240101000000_add_email` |
| `MigrateSpec.KeyAsWrittenReapplies` | internal/migrate/migrate.go:93-118 | `20240101000000_add_email.up.sql`, recorded under its as-written key, is still pending on the next run |
| `MigrateSpec.KeyAsWrittenRecordedIff` | internal/migrate/migrate.go:93-118 | an up file recorded under its as-written key counts as applied exactly when its stem is empty or does not end in one of `.`, `u`, `p`, `s`, `q`, `l`; otherwise it stays pending |
| `MigrateSpec.KeyRemovesFromPending` | internal/migrate/migrate.go:93-118 | a file recorded under its key is no longer pending |
| `MigrateSpec.RecordedByKey` | internal/migrate/migrate.go:96 | an up file matches some recorded key exactly when its key is recorded |
| `MigrateSpec.Pending` | internal/migrate/migrate.go:93-100 | no ensures: the intended filter; `PendingMembers`, `PendingAppend`, `PendingCount` and `PendingSameKeys` characterise it, and `Migrate.Except` computes it |
| `MigrateSpec.PendingMembers` | internal/migrate/migrate.go:93-100 | a file is pending exactly when it was discovered and matches no recorded key |
| `MigrateSpec.AlreadyAppliedMembers` | internal/migrate/migrate.go:93-100 | a file counts as already applied exactly when it was discovered and a recorded key matches it, so with `PendingCount` the pending count is the discovered count less the recorded ones |
| `MigrateSpec.PendingAppend` | internal/migrate/migrate.go:93-100 | the filter distributes over concatenation, so pending files keep discovery order |
| `MigrateSpec.PendingCount` | internal/migrate/migrate.go:93-100 | the counts of pending and already-applied files add up to the count of discovered files |
| `MigrateSpec.PendingSameKeys` | internal/migrate/migrate.go:95-96 | the filter depends only on which keys are recorded, not their order |
| `MigrateSpec.RemoveAt` | internal/migrate/migrate.go:97 | `append(ms[:k], ms[k+1:]...)` on the shared backing array: the result is a well-formed slice over a backing array of the same length; none is the panic of `ms[k+1:]` past the current length |
| `MigrateSpec.RemoveMatches` | internal/migrate/migrate.go:95-99 | the inner loop over the records for one element: a well-formed slice over a backing array of the same length, or the panic |
| `MigrateSpec.RangeRemove` | internal/migrate/migrate.go:93-100 | the outer `range` loop, running over the original length and reading each element from the shared backing array: a well-formed slice over a backing array of the same length, or the panic |
| `MigrateSpec.ExceptAsWritten` | internal/migrate/migrate.go:93-100 | no ensures: the filter step as written, none being a panic; `ExceptAsWrittenNothingRecorded`, `ExceptAsWrittenSkips` and `ExceptAsWrittenPanics` give its values |
| `MigrateSpec.RangeRemoveNothingRecorded` | internal/migrate/migrate.go:93-100 | with nothing recorded, the in-place loop as written leaves the slice as it was |
| `MigrateSpec.ExceptAsWrittenNothingRecorded` | internal/migrate/migrate.go:93-100 | with nothing recorded, the in-place loop as written agrees with the filter |
| `MigrateSpec.ExceptAsWrittenSkips` | internal/migrate/migrate.go:93-100 | on `a`,`b`,`c` with `a`,`b` recorded, the loop as written returns `b`,`c`; the filter returns `c` |
| `MigrateSpec.ExceptAsWrittenPanics` | internal/migrate/migrate.go:93-100 | on `a`,`b` with both recorded, the loop as written panics; the filter returns nothing |
| `MigrateSpec.LatestBatch` | internal/migrate/migrate.go:187 | no ensures: the newest row's batch, 0 for an empty table; `LatestIsHighest` shows it is the highest batch in an ordered history |
| `MigrateSpec.LatestIsHighest` | internal/migrate/migrate.go:187 | in a history with non-decreasing batches, the newest row's batch is the highest |
| `MigrateSpec.ApplyAll` | internal/migrate/migrate.go:106-130 | no ensures: the apply loop over the pending files; `ApplyAllEffect`, `ApplyAllOneBatch` and `ApplyAllKeepsOrder` state its effect, and `Migrate.Migrator.ApplyPending` computes it |
| `MigrateSpec.CommittedPrefix` | internal/migrate/migrate.go:106-130 | the count of leading pending files that commit: all before it commit, and the file at it does not |
| `MigrateSpec.ApplyAllEffect` | internal/migrate/migrate.go:106-130 | the committing prefix adds one record under the batch and its script each, in order; nothing of the failing file or later files is kept; the result is success exactly when all committed, else that file's error |
| `MigrateSpec.ApplyAllOneBatch` | internal/migrate/migrate.go:119 | earlier rows are kept; at most one row per pending file is added; every added row carries the same batch |
| `MigrateSpec.ApplyAllKeepsOrder` | internal/migrate/migrate.go:119 | applying under the latest batch plus one keeps batches non-decreasing in insertion order |
| `MigrateSpec.UpSpec` | internal/migrate/migrate.go:78-131 | no ensures: Up after its name check, using the corrected key, filter and read; `Migrate.Migrator.Up` computes it, and `UpIdempotent` and `UpTwoFiles` state its effect |
| `MigrateSpec.UpIdempotent` | internal/migrate/migrate.go:78-131 | after a successful Up, nothing is pending and a second Up succeeds without change |
| `MigrateSpec.UpTwoFiles` | internal/migrate/migrate.go:78-131 | two new committing files against an empty history are recorded in discovery order, both under batch 1 |
| `Migrate.Except` | internal/migrate/migrate.go:93-100 | the pending step, built as a new sequence, equals the intended filter |
| `Migrate.Directory.Create` | internal/migrate/migrate.go:146 | creation fails for refused names; otherwise the file exists and is empty |
| `Migrate.Directory.WriteString` | internal/migrate/migrate.go:156 | the text is appended to the file |
| `Migrate.Tx.Begin` | internal/migrate/migrate.go:111 | a new transaction with no statements run and no records inserted |
| `Migrate.Tx.Exec` | internal/migrate/migrate.go:112 | the statement is kept in the transaction unless the database refuses it |
| `Migrate.Tx.Insert` | internal/migrate/migrate.go:119 | the record is kept in the transaction unless the database refuses the insert |
| `Migrate.Tx.Commit` | internal/migrate/migrate.go:124 | on success, all the transaction's statements and records reach the database at once; on failure, none do |
| `Migrate.Tx.Rollback` | internal/migrate/migrate.go:114 | the transaction's work is discarded |
| `Migrate.Migrator.New` | internal/migrate/migrate.go:32-42 | a new Migrator has the given database, directory and timestamp, empty names and kind 0 |
| `Migrate.Migrator.SetName` | internal/migrate/migrate.go:45-59 | sets `upName`/`downName` to `<ts>_<name>.up.sql`/`.down.sql`, the table and the kind as parsed from the name, and returns nil |
| `Migrate.Migrator.Create` | internal/migrate/migrate.go:62-75 | with a name missing, returns "migration name required" and writes nothing; otherwise writes the up then the down skeleton, stopping at the first file that cannot be created |
| `Migrate.Migrator.CreateFile` | internal/migrate/migrate.go:141-160 | the file of the direction is created holding exactly its skeleton (empty when there is none), or creation fails and nothing changes |
| `Migrate.Migrator.ReadRecordsAsWritten` | internal/migrate/migrate.go:169-188 | the row loop as written: an empty table panics at `batches[0]`; with rows, the scan fails unless the query selects exactly two columns, and with two it returns the keys newest first and the newest batch; with the one column the query selects, it never returns records |
| `Migrate.Migrator.ReadRecords` | internal/migrate/migrate.go:169-188 | the keys newest first and the newest row's batch, 0 for an empty table |
| `Migrate.Migrator.Up` | internal/migrate/migrate.go:78-104 | with a name missing, returns "migration name required" without change; otherwise the result, rows and schema are those of applying the pending files under the next batch |
| `Migrate.Migrator.ApplyPending` | internal/migrate/migrate.go:106-130 | the loop over the pending files has exactly the effect of the apply function |
| `Migrate.Migrator.ApplyFile` | internal/migrate/migrate.go:107-128 | a committing file adds its record and script and returns nil; any other returns its error and changes nothing |
| `Migrate.Migrator.Down` | internal/migrate/migrate.go:134-139 | returns "migration name required" when a name is missing, nil otherwise, and changes nothing |
| `Http.StripTop` | http/http.go:97 | no ensures: `field[strings.Index(field, ".")+1:]`; `StripTopShape` gives its value with and without a `.` |
| `Http.StripTopShape` | http/http.go:97 | a key with `.` loses exactly the dot-free part before its first `.` and the dot; a key without `.` is kept whole |
| `Http.StrippedSize` | http/http.go:95-99 | at most as many stripped keys as keys, and exactly as many when no two keys strip alike |
| `Http.StripAll` | http/http.go:95-99 | the loop writes every input entry under its stripped key: the output's keys are exactly the stripped input keys, and each output entry holds the value of an input key that strips to it |
| `Http.RemoveTopStruct` | http/http.go:94-100 | the output's keys are the stripped input keys; each value comes from an input entry that strips to its key; the size is within the input's, equal when stripped keys are distinct, with every entry then carried over |

## Left out

- Database plumbing is not modelled: `sql.DB`, `createMigrationTable` and the panic in `New` when it fails. The `migrations` table is assumed to exist.
- `Query` errors in `getMigrationRecords` are not modelled, nor errors of `db.Begin`. The code ignores the latter, and a nil transaction would then panic.
- `MigrateSpec.ApplyAll`: the database's answer depends only on the script text of the file, so two files with the same text get the same answer.
- `MigrateSpec.ApplyAll`: batch numbers are unbounded naturals. The wrap-around of Go's `uint` at 2^64 and the column's `INT UNSIGNED` range are not modelled.
- `filepath.Glob` is not modelled: not its pattern matching, not its bad-pattern error, not its order. Its result is the `listing` input.
- File names in the model are base names, so `path.Join` and `filepath.Base` are identities here.
- `ioutil.ReadFile` fails in the model only for a file that is missing from the directory.
- `os.Create` fails in the model only for names in `Directory.readOnly`. `WriteString` errors and `f.Close` are not modelled.
- `time.Now()` becomes the constructor parameter `ts`.
- `fmt.Printf`/`Println` progress output is not modelled.
- `Down`'s intended rollback of the last batch is absent from the code and is not modelled.
- Strings are sequences of characters and Go's are bytes, so `Index` gives a character position where Go gives a byte position once a multi-byte character precedes the match. The results the callers compute still agree: the pieces of a split, the stripped key and the trimmed key. `.` and `_` are one byte each and never occur inside a multi-byte UTF-8 sequence.
- The rest of `http/http.go` is not modelled: `registerRoutes`, `genToken`/`parseToken` (JWT), `md5Str`, the `respondWith*` handlers, and validator translation.

## Findings

| source | as written | input that shows it | evidently intended | confidence | as-written member | corrected member |
|---|---|---|---|---|---|---|
| internal/migrate/migrate.go:118 | `strings.TrimRight(s, ".up.sql")` strips any trailing run of the characters `.`, `u`, `p`, `s`, `q`, `l` | `20240101000000_add_email.up.sql` is stored as `20240101000000_add_emai` and never matches at line 96. Any stem ending in one of those characters would be re-applied on every run. This stays latent while the read at lines 170-187 fails, since `Up` returns at lines 88-90 first | remove the exact `.up.sql` suffix (`strings.TrimSuffix`) | high; not executed | `MigrateSpec.KeyAsWrittenRecordedIff` | `MigrateSpec.KeyRemovesFromPending` |
| internal/migrate/migrate.go:93-100 | elements are removed from `ms` with `append(ms[:k], ms[k+1:]...)` while `range` walks the same backing array | `a.up.sql`,`b.up.sql`,`c.up.sql` with `a`,`b` recorded would leave `b` pending, and `a.up.sql`,`b.up.sql` with both recorded would panic. This is latent behind the read fault below, which makes `Up` return at lines 88-90 | keep the unrecorded files in a new sequence | high; not executed | `MigrateSpec.ExceptAsWrittenSkips` | `Migrate.Except` |
| internal/migrate/migrate.go:170-187 | the query selects one column but `Scan` is given two destinations, which database/sql refuses; `batches[0]` indexes a possibly empty slice | any history: a scan error when it has rows, a panic when it has none, so `Up` never reaches the apply loop | select `migration, batch`; take batch 0 for an empty table | high; not executed | `Migrate.Migrator.ReadRecordsAsWritten` | `Migrate.Migrator.ReadRecords` |

`Up` in this model uses the corrected key, filter and read. `MigrateSpec.UpIdempotent` proves that, with them, a second `Up` has nothing to do.
