# blockscout-vc-transfer, modelled in Dafny

The tool copies data between two Blockscout PostgreSQL databases. It has two
mechanisms, and both are modelled here.

* **Bulk copy** (`dump`, `load`, `transfer`). It builds `COPY ... WITH BINARY`
  statements by plain string concatenation and names the intermediate file
  after a table as `dump-<table>.txt`.
* **Name transfer** (`transfer-names`). It reads every `address_names` row of
  the source. For each row, in order, it asks the destination whether a row
  with the same `address_hash` exists. If one does, the row is skipped. If
  none does, the seven columns as read are inserted, `id` included.
  An error on any row is logged, and the loop goes on with the next row.

Before any of this, each side is opened. A connection is handed out only when
the schema catalog says the configured table exists.

## Layout

| file | module | contents |
|---|---|---|
| `wrappers.dfy` | `Wrappers` | `Option` and `Result` |
| `connection.dfy` | `Connection` | `DB`, `Config`, and the `OpenDB` gate over oracle `connect` / `tableExists` functions |
| `copy_queries.dfy` | `CopyQueries` | the dump-file name and the dump/load statement text, each with a parser and round-trip contracts |
| `source_read.dfy` | `SourceRead` | reading the source rows: the loop as written and a reader that also checks the cursor's error |
| `name_transfer.dfy` | `NameTransfer` | the `NameRow` record, the single-row write, the reconciler as a fold, and the loop as a method |
| `name_transfer_props.dfy` | `NameTransferProps` | properties of the reconciler: per-row outcome, continuing after errors, key uniqueness, idempotence, and a reference description of a failure-free run |
| `commands.dfy` | `Commands` | the five commands as the statements they issue, over an `Env` of outside answers (connecting, the catalog, file creation and opening, path resolution, statement execution) |

Modelling choices:

* The destination table is a `seq<NameRow>`. An insert appends the new row at
  the end. Row order only tells rows apart; the database does not promise it.
* The hash, timestamp and metadata columns are type parameters. They are only
  ever compared for equality. A row "copied as read" is equal to the source
  row as a model value; the tool's JSON re-encoding of `metadata` is not
  modelled (see Left out). `id` is an `int` because it is copied unchanged
  and never computed with.
* The database's answer for source row `i` is the oracle value `faults[i]`:
  `Healthy`, `CheckFails` or `InsertFails`.
* Both the existence check and the insert are modelled as errors that are
  logged, after which the loop continues. That is what `main.go` does: lines
  263-266 return the check error, and lines 159-162 only log it.
* `dump` accepts a `condition` argument but reads the configured condition
  instead. `CopyQueries.DumpQuery` keeps both inputs, and the configured one
  decides the `WHERE` clause. Every caller passes the configured condition,
  so the difference cannot be observed.
* Nothing is quoted or escaped. `CopyQueries.DumpConditionIsSplicedIntoTable`
  shows that a filter cannot be told apart from a table name that ends in
  ` WHERE ...`.

## Model

| member | source | states |
|---|---|---|
| `Connection.OpenDB` | main.go:188-199 | a connection is returned iff connecting succeeds and the catalog reports the table as present; a failed connect, a failed catalog query and a missing table each give their own error |
| `CopyQueries.DumpFileName` | main.go:62 | the file name is `dump-` + table + `.txt`; the table name can be read back from it |
| `CopyQueries.DumpFileNameInjective` | main.go:123 | two tables share a dump file exactly when their names are equal |
| `CopyQueries.DumpQuery` | main.go:201-205 | the export is `COPY (SELECT * FROM <sel>) TO '<file>' WITH BINARY`, with `<sel>` the table plus ` WHERE <cond>` when the configured condition is non-empty and the bare table otherwise; parsing it gives back that selection and the file |
| `CopyQueries.LoadQuery` | main.go:213-214 | the import is `COPY <table> FROM '<file>' WITH BINARY`; parsing it gives back the table and the file |
| `CopyQueries.DumpQueryIgnoresConditionArgument` | main.go:201-203 | the statement does not depend on the `condition` argument |
| `CopyQueries.DumpConditionIsSplicedIntoTable` | main.go:202-205 | with a configured condition, the statement equals the unfiltered statement for the table name with ` WHERE <cond>` appended |
| `NameTransfer.WriteToTarget` | main.go:259-283 | the table either stays the same or gains exactly the given row at the end, and it gains the row iff the key was absent and both queries succeed; a present key is never written and counts as success unless the check fails; the error names the failed query; after success the key is present; distinct keys stay distinct |
| `NameTransfer.Reconcile` | main.go:158-163 | every source row gets one logged outcome; rows already in the destination stay unchanged and in place; every added row is a copy of a source row, equal column by column |
| `NameTransfer.TransferNames` | main.go:158-163 | the loop produces the same table and the same per-row errors as the fold; a row whose queries succeed logs no error |
| `NameTransfer.ReconcileSplit` | main.go:158-163 | a run over `a + b` is a run over `a` followed by a run over `b` from the table `a` left behind, and the logs are concatenated |
| `NameTransferProps.RowOutcome` | main.go:158-163 | row `i` is written against exactly the table rows `0..i-1` left, whatever errors they returned; its error is logged at position `i`, and what it wrote survives to the end |
| `NameTransferProps.RowErrorsAreIsolated` | main.go:263-280 | a row whose queries succeed logs nothing and its key is in the final table, whatever earlier rows did; a check error is logged iff the check failed; an insert error is logged only if the insert failed |
| `NameTransferProps.ReconcileKeepsUniqueKeys` | main.go:262-270 | if destination keys are pairwise distinct before a run, they still are after it, even when the source repeats a key |
| `NameTransferProps.ReconcileInsertsOnlyAbsentKeys` | main.go:262-282 | every added row has a key the destination did not hold before the run |
| `NameTransferProps.HealthyRunCoversSource` | main.go:268-282 | after a failure-free run every source key is in the destination and no error is logged |
| `NameTransferProps.CoveredRunIsNoOp` | main.go:268-270 | when all source keys are already present, a run leaves the destination identical whatever the database answers, and no insert error is logged |
| `NameTransferProps.ReconcileIdempotent` | main.go:158-163 | after a failure-free run, a second run over the same source leaves the destination identical, and it logs nothing when its own queries succeed |
| `NameTransferProps.HealthyRunAppendsMissing` | main.go:272-282 | a failure-free run leaves the destination as it was, followed by each source row whose key is in neither the destination nor an earlier source row, copied as read and in source order |
| `NameTransferProps.TwoRowExample` | main.go:262-282 | destination `{A}` and source `{A', B}` with `A'` sharing `A`'s key: a failure-free run leaves exactly `A` unchanged followed by `B` as read |
| `SourceRead.ReadAsWritten` | main.go:222-257 | the read as the tool performs it: it succeeds iff the query is accepted and every delivered row scans, whether or not the delivery ended on an error |
| `SourceRead.AsWrittenAcceptsBrokenCursor` | main.go:231-256 | a cursor that delivers one row and then fails is reported by the read as written as a complete, successful read of that one row; the corrected read reports `IterationFailed` |
| `SourceRead.AsWrittenIgnoresIterationError` | main.go:231-256 | the read as written gives the same answer whether or not the delivery broke off |
| `SourceRead.ReadSourceRows` | main.go:222-257 | the corrected read succeeds iff the query is accepted, every delivered row scans, and the delivery ended without error; it then returns every delivered row, in order |
| `SourceRead.ReadersAgreeWithoutIterationError` | main.go:222-257 | when the delivery does not break off, the corrected read and the read as written give the same answer |
| `Commands.TestCommand` | main.go:102-111 | succeeds iff both sides open; a source failure is reported before the destination is tried; nothing is issued |
| `Commands.DumpCommand` | main.go:56-78 | fatal iff the source cannot be opened, the dump file cannot be created, or the export is rejected (a rejected export is `CopyFailed` on the source); with no absolute path nothing is exported; otherwise exactly one statement, on the source: `CopyQueries.DumpQuery` for the configured selection and the resolved path, whatever that path contains |
| `Commands.LoadCommand` | main.go:80-99 | fatal iff the destination cannot be opened, the dump file named after the destination table cannot be opened, or the import is rejected; with no absolute path nothing is imported; otherwise exactly one statement, on the destination: `CopyQueries.LoadQuery` for the destination table and the resolved path, whatever that path contains |
| `Commands.LoadReadsDumpedFile` | main.go:86 | a separate load reads the file a separate dump wrote iff the source and destination table names are equal |
| `Commands.TransferCommand` | main.go:113-141 | fatal iff a side cannot be opened, the file cannot be created, or the export or the import is rejected; the import is attempted only after the export succeeded; with no absolute path nothing is issued; otherwise exactly two statements: `CopyQueries.DumpQuery` on the source, then `CopyQueries.LoadQuery` on the destination, both for the same resolved path, so the import reads exactly the path the export wrote |
| `Commands.TransferIsDumpThenLoad` | main.go:113-141 | when both tables share a name and the dump file can be opened, a successful transfer issues exactly what a successful dump followed by a successful load issues |
| `Commands.TransferNamesCommand` | main.go:143-167 | fatal iff a side cannot be opened or the source read fails, the read checking the cursor's error (see Findings); otherwise the run is the reconciler applied to every row read, in order, so each row gets one logged outcome, every added row is a row read, existing destination rows are kept, and distinct keys stay distinct |
| `Commands.TransferNamesAppendsMissing` | main.go:153-163 | a failure-free transfer-names run leaves the destination as it was, followed by each row read whose key is in neither the destination nor an earlier row read, in order |

## Left out

- Command-line and configuration loading (cobra wiring, viper YAML and environment lookup, main.go:29-54 and 169-176). This is framework glue; the model receives a `Config` value.
- Database I/O: connecting, the `information_schema` lookup, `Exec`, `Query`, `QueryRow` and `Scan`. These are foreign calls, so they become oracles (`Env`, `faults`, and the `cursor` argument of `Commands.TransferNamesCommand`).
- What the `COPY` statements do to the data, the PostgreSQL binary format, and the dump-then-load data round trip. These belong to the database engine. Whether a statement is accepted is an `Env` answer; a rejected statement is fatal, as in the tool.
- The driver's row cursor behind `readFromSourceTable` (main.go:222-257) is an oracle (`SourceRead.Cursor`). It gives the query's outcome, each delivered row's scan, and whether the delivery ended on an error. Note that the read always uses the fixed table `address_names`, while `openDB` checks the configured table names.
- File handling (`os.Create`, `os.Open`, `filepath.Abs`), closing connections, and all printing and logging. File creation and path resolution are `Env` answers. A logged error is the per-row entry of `Run.log`.
- Why a query fails (for example an `id` collision on insert) is not modelled. Only the fact that it failed enters, through the oracle.
- NameTransfer.WriteToTarget: the `metadata` column is an opaque value copied unchanged. The tool itself decodes the JSON into a Go map (main.go:236, 239) and encodes it again on insert (main.go:277). JSON numbers therefore pass through float64, and integers above 2^53 may change on the way. The model does not represent that re-encoding.
- NameTransferProps.HealthyRunAppendsMissing: "copied as read" holds for the model's opaque column values only, for the same reason as for `NameTransfer.WriteToTarget`: the tool re-encodes `metadata` through float64.
- Commands.TransferNamesCommand: reads the source with the corrected `SourceRead.ReadSourceRows` (see Findings). On a cursor whose delivery breaks off it therefore stops fatally, where the tool as written reconciles the rows delivered so far.
- CopyQueries.DumpQuery: the round trip to `ParseDumpQuery` is stated only for file paths without a single quote. Without escaping, a quote in the path makes the statement text ambiguous.
- CopyQueries.LoadQuery: the round trip to `ParseLoadQuery` is stated only for file paths without a single quote, for the same reason.

## Findings

| source | as written | input that shows it | evidently intended | confidence | as-written member | corrected member |
|---|---|---|---|---|---|---|
| main.go:231-256 | the row loop ends when `rows.Next()` returns false and then returns the rows read so far with a nil error, without consulting `rows.Err()`; `rows.Next()` returns false both at the end of the result set and on a delivery error | a cursor that delivers one row and then reports an iteration error: the read returns that one row as a success, as if it were the whole table | a delivery error is returned as an error, as the query and scan errors already are, so that transfer-names stops fatally | high; not executed | `SourceRead.ReadAsWritten`, `SourceRead.AsWrittenAcceptsBrokenCursor` | `SourceRead.ReadSourceRows` |
