# BizDB data-access core in Dafny

BizDB is a Java data-access layer. Callers describe a table operation —
insert a column-to-value map, update or delete under a condition, fetch one
row, search a window of rows, count, take a maximum — and an executor
(`IDbOp`) turns it into SQL text plus a positional bind list, runs it over a
JDBC connection and turns the answer into records (maps keyed by column name
or label, or arrays). The base executor (`DbOpBase`) works on any database;
the Oracle dialect (`DbOpOracle`) overrides search to page on the server
with ROWNUM. A registry (`DbOpMgr`) picks the executor for a JDBC driver and
version. Two facades sit on top: the static `DbOp`, which forwards to the
current executor with default arguments filled in, and `AbstractBizDB`,
which also borrows a connection from a named pool (`DbcpManager`) and always
releases it, committing writes. `DbUrlUtils` builds the JDBC URL, driver
class and setup script name for each database type; `SQLUtil` holds the
condition glue constants and the injection scrubber.

The model keeps the Java structure: one module per source file, plus
`Common` (Option/Result, Java int, decimal text), `Jdbc` (columns, cells,
cursors) and `ResultRows` (binding, value coercion, row conversion and the
fetch window shared by every search). Java `null` is `None`. Exceptions are
`Err` values of `Failure`. The database is never modelled. Each read takes
the cursor the driver answered with, and each write returns the statement it
prepared (SQL, binds, key request). The Oracle server's paging is modelled
as a function of the answer to the inner SELECT.

## Model

| member | source | states |
|---|---|---|
| Jdbc.CategoryOf | src/main/java/com/common/db/DbOpBase.java:50-147 | The binary branch takes exactly the four binary types, the date branch exactly DATE and TIMESTAMP, and the CLOB branch only CLOB. |
| ResultRows.SetValues | src/main/java/com/common/db/DbOpBase.java:28-39 | Bind i carries value i. A Date is bound as a Timestamp of the same instant, and nothing else becomes a Timestamp. |
| ResultRows.TruncDecimal | src/main/java/com/common/db/DbOpBase.java:101-107 | A decimal's integer part is `unscaled / 10^scale` rounded toward zero: the quotient of the magnitude, with the value's sign. |
| ResultRows.TruncDecimalBrackets | src/main/java/com/common/db/DbOpBase.java:101-107 | The integer part t satisfies `t·10^scale <= unscaled < (t+1)·10^scale` for non-negative values, and the mirror bounds for negative ones. |
| ResultRows.NumberReadsAsQuotient | src/main/java/com/common/db/DbOpBase.java:71-107 | A NUMERIC (not the Oracle boolean case), BIGINT or DECIMAL number reads as its unscaled value divided by 10^scale, rounded toward zero, whenever that fits 32 bits. |
| ResultRows.DecimalTruncatesTowardZero | src/main/java/com/common/db/DbOpBase.java:100-107 | DECIMAL 12.75 reads as 12, and -12.75 as -12. |
| ResultRows.GetInt | src/main/java/com/common/db/DbOpBase.java:99-100 | `getInt` always yields a 32-bit value. SQL NULL reads as 0, and an in-range number reads as its truncated integer part. |
| ResultRows.GetObject | src/main/java/com/common/db/DbOpBase.java:116-144 | `getObject` is null exactly for SQL NULL. |
| ResultRows.GetRsObj | src/main/java/com/common/db/DbOpBase.java:50-147 | Cell coercion by type category. The result is null exactly for SQL NULL outside BIGINT, whose NULL reads as 0. It is a boolean exactly for NUMERIC(1) under Oracle metadata, true iff non-zero. Numbers are 32-bit, and an in-range number is its decimal value rounded toward zero. Binary is decoded, CLOB becomes text, date/time becomes a Date of the same instant, and other types pass through. |
| ResultRows.ColumnKeys | src/main/java/com/common/db/DbOpBase.java:896 | Records are keyed by column name, or by display label for the label search, one key per column. |
| ResultRows.RowValues | src/main/java/com/common/db/DbOpBase.java:564-576 | A row's values are its cells coerced column by column. |
| ResultRows.LastIndex | src/main/java/com/common/db/DbOpBase.java:564-576 | Locates a key's last occurrence in the column keys. |
| ResultRows.LastIndexOfUnrepeated | src/main/java/com/common/db/DbOpBase.java:564-576 | A key that is not repeated later has its own position as its last occurrence. |
| ResultRows.PutAll | src/main/java/com/common/db/DbOpBase.java:564-576 | A map filled by successive puts holds exactly the keys put. Each key keeps its last value. |
| ResultRows.ConvertRow | src/main/java/com/common/db/DbOpBase.java:564-576 | A map record has exactly the column keys, and each key holds the value of the last column with that key. An array record holds the row's values in column order. |
| ResultRows.Window | src/main/java/com/common/db/DbOpBase.java:772-810 | Reference window: drop max(start,0) rows, then keep up to `max` (none for 0, all the rest for negative), preserving order. |
| ResultRows.WindowRecords | src/main/java/com/common/db/DbOpBase.java:772-810 | One record per windowed row, converted from that row. |
| ResultRows.FetchRows | src/main/java/com/common/db/DbOpBase.java:772-810 | The Java fetch loop (skip while the counter is below start, stop after max) returns exactly the reference window shifted by the counter's starting value. |
| DbOpBase.Names | src/main/java/com/common/db/DbOpBase.java:212-233 | Column names in map iteration order. |
| DbOpBase.Values | src/main/java/com/common/db/DbOpBase.java:212-233 | Values in the same order as the names. |
| DbOpBase.WhereGuardsDiffer | src/main/java/com/common/db/DbOpBase.java:313-334 | Update and delete add `where` for any non-null condition; getOneRow and search need it non-empty. The two differ exactly on the empty condition, which leaves a dangling ` where `. |
| DbOpBase.Placeholders | src/main/java/com/common/db/DbOpBase.java:212-233 | n question marks, one per column. |
| DbOpBase.LegalUserName | src/main/java/com/common/db/DbOpBase.java:1166-1178 | No user means schema "public". Oracle upper-cases the user; other products use it as given. |
| DbOpBase.TableId | src/main/java/com/common/db/DbOpBase.java:1149-1160 | The primary key is the last column the metadata reports, or null when none is reported. |
| DbOpBase.TableIdLastRowWins | src/main/java/com/common/db/DbOpBase.java:1149-1160 | Each reported row overwrites the answer: rows appended decide it when they report anything and leave it unchanged otherwise. |
| DbOpBase.OracleUserNameIgnoresCase | src/main/java/com/common/db/DbOpBase.java:1166-1178 | On Oracle, two user names equal up to the case of their ASCII letters give the same schema. |
| DbOpBase.OracleUserNameIdempotent | src/main/java/com/common/db/DbOpBase.java:1166-1178 | On Oracle, folding an already folded user name changes nothing. |
| DbOpBase.KeyRequestFor | src/main/java/com/common/db/DbOpBase.java:236-252 | Keys are requested iff isAutoGenKey. A given column list is used as is. Otherwise Oracle asks for the primary-key column and other products ask for generated keys. |
| DbOpBase.Insert | src/main/java/com/common/db/DbOpBase.java:201-281 | Fails iff conn, table or map is null. Otherwise it issues `insert into T (names) values (?,..)`, binding value i at mark i. The result is the first generated key read with getInt, or 0 when none is asked for or returned. |
| DbOpBase.InsertColumnsMeetMarks | src/main/java/com/common/db/DbOpBase.java:212-233 | The insert text splits back into the column list and one mark per column, in the same order. |
| DbOpBase.CountMarksPlaceholders | src/main/java/com/common/db/DbOpBase.java:212-233 | The placeholder list holds exactly n marks. |
| DbOpBase.InsertMarksMatchBinds | src/main/java/com/common/db/DbOpBase.java:212-233 | With mark-free names, the insert statement has exactly one `?` per bind. |
| DbOpBase.SetItems | src/main/java/com/common/db/DbOpBase.java:313-334 | One `name=?` per column, in order. |
| DbOpBase.Update | src/main/java/com/common/db/DbOpBase.java:299-347 | Fails iff conn, table or map is null. Data values are bound first. Condition values follow only when both the condition and its values are non-null. |
| DbOpBase.CountMarksSetItems | src/main/java/com/common/db/DbOpBase.java:313-334 | The set list holds one mark per column. |
| DbOpBase.UpdateMarksMatchBinds | src/main/java/com/common/db/DbOpBase.java:299-347 | When the condition holds one mark per condition value, the update has exactly one mark per bind. |
| DbOpBase.UpdateField | src/main/java/com/common/db/DbOpBase.java:364-398 | Every argument is required, including a non-null value and condition. The call is the map update of one field, binding just that value. |
| DbOpBase.Delete | src/main/java/com/common/db/DbOpBase.java:414-443 | Fails iff conn or table is null. Condition values are bound whenever non-null. |
| DbOpBase.CondValuesWithoutCondition | src/main/java/com/common/db/DbOpBase.java:299-443 | Condition values without a condition: update drops them, while delete still binds them to a mark-free statement. |
| DbOpBase.GetOneRow | src/main/java/com/common/db/DbOpBase.java:519-600 | Null conn or table fails as an illegal argument. No row fails as not found, and with mustUnique a second row fails as not unique. Otherwise the result is the first row converted. |
| DbOpBase.Search | src/main/java/com/common/db/DbOpBase.java:714-823 | Fails iff conn or table is null. Otherwise it issues the SELECT with grouping and ordering and returns the window start..start+max of the answer as records. |
| DbOpBase.GetOneRowIsFirstOfSearch | src/main/java/com/common/db/DbOpBase.java:519-600 | A successful single-row fetch returns the same record as a one-row search from the top. |
| DbOpBase.LabelRecordMatchesNameRecord | src/main/java/com/common/db/DbOpBase.java:826-936 | With unrepeated names and labels, the label-keyed record holds under label j what the name-keyed record holds under name j. |
| DbOpBase.ArraySearchIgnoresLabels | src/main/java/com/common/db/DbOpBase.java:826-936 | Array results of searchInLabel and search are identical. |
| DbOpBase.GetCount | src/main/java/com/common/db/DbOpBase.java:955-997 | Fails iff conn or table is null. It counts `*` or `distinct d`. An empty answer is 0; otherwise column 1 is read as a 32-bit int. |
| DbOpBase.CountFiltersLikeSearch | src/main/java/com/common/db/DbOpBase.java:964-974 | The count adds a WHERE exactly when search does, around the same condition. |
| DbOpBase.Aggregate | src/main/java/com/common/db/DbOpBase.java:1017-1091 | `select fn(col)` with the condition whenever it is non-null. The result is null iff there is no row or column 1 is NULL, and otherwise the driver's object. A failed argument check is reported under getCount's name. |
| DbOpBase.GetMax | src/main/java/com/common/db/DbOpBase.java:1017-1051 | A `max` query with the condition's binds. Null iff there is no value. |
| DbOpBase.GetMin | src/main/java/com/common/db/DbOpBase.java:1055-1091 | A `min` query with the condition's binds. Null iff there is no value. |
| DbOpBase.AggregateFiltersLikeDelete | src/main/java/com/common/db/DbOpBase.java:414-433 | getMax and getMin put the same `where` text after the table as delete, and bind the same values. |
| DbOpBase.MinMirrorsMax | src/main/java/com/common/db/DbOpBase.java:1017-1091 | getMin is getMax with `min` in place of `max`: it fails on the same inputs, binds the same values and answers the same from the same cursor. |
| DbOpBase.BatchCount | src/main/java/com/common/db/DbOpBase.java:1102-1115 | The loop count is the least number of 30-statement batches covering the list. |
| DbOpBase.BatchesAsWritten | src/main/java/com/common/db/DbOpBase.java:1102-1115 | The loop's batches, one per loop turn, each at most 30 statements. |
| DbOpBase.Batches | src/main/java/com/common/db/DbOpBase.java:1102-1115 | Intended batches: non-empty, at most 30, consecutive slices of the list. |
| DbOpBase.LastBatch | src/main/java/com/common/db/DbOpBase.java:1102-1115 | The last intended batch runs to the end of the list. |
| DbOpBase.BatchesPrefix | src/main/java/com/common/db/DbOpBase.java:1102-1115 | All but the last intended batch are the batches of the statements before it. |
| DbOpBase.BatchesCover | src/main/java/com/common/db/DbOpBase.java:1102-1115 | The intended batches, concatenated, are exactly the statement list. |
| DbOpBase.AsWrittenAgreesOffMultiples | src/main/java/com/common/db/DbOpBase.java:1102-1115 | When the count is not a multiple of 30, the loop cuts the intended batches. |
| DbOpBase.AsWrittenDropsLastBatch | src/main/java/com/common/db/DbOpBase.java:1102-1115 | On a positive multiple of 30, the loop's last batch is empty, so the last 30 statements never run. |
| DbOpBase.ThirtyStatementsRunNothing | src/main/java/com/common/db/DbOpBase.java:1102-1115 | Thirty statements: as written none runs, intended all run. |
| DbOpBase.AsWrittenRunsPrefix | src/main/java/com/common/db/DbOpBase.java:1102-1115 | The loop's batches, run in order, execute exactly the list without its last 30 statements when its length is a positive multiple of 30, and the whole list otherwise. |
| DbOpBase.ExecSqlAsWritten | src/main/java/com/common/db/DbOpBase.java:1097-1120 | Null conn or list fails. Otherwise there is one batch per loop turn, each at most 30 statements, and together they run every statement in order except the last 30 of a list whose length is a positive multiple of 30. |
| DbOpBase.ExecSql | src/main/java/com/common/db/DbOpBase.java:1097-1120 | Corrected: null conn or list fails. Otherwise every statement runs exactly once, in order, in non-empty batches of at most 30. |
| DbOpBase.InsertIfNotExists | src/main/java/com/common/db/DbOpBase.java:1139-1147 | With a condition, it refuses iff the count is positive; otherwise it inserts asking for the generated key. |
| DbOpOracle.PagedSql | src/main/java/com/common/db/dialect/DbOpOracle.java:54-94 | The paged statement contains the baseline SELECT verbatim between the ROWNUM prefix and suffix. |
| DbOpOracle.SlicesOfConcat | src/main/java/com/common/db/dialect/DbOpOracle.java:54-94 | The three parts of the envelope can be read back from it. |
| DbOpOracle.Search | src/main/java/com/common/db/dialect/DbOpOracle.java:37-163 | Fails iff conn or table is null. Otherwise it sends the paged statement with the condition binds and reads the server's answer from its first row, up to max rows. |
| DbOpOracle.RownumEnvelope | src/main/java/com/common/db/dialect/DbOpOracle.java:54-94 | Oracle's answer keeps the inner columns, with `rownum_` appended when start > 0, and the inner cursor's metadata. |
| DbOpOracle.RownumRowsFit | src/main/java/com/common/db/dialect/DbOpOracle.java:54-58 | An inner row with its row number appended fits the enveloped columns. |
| DbOpOracle.EnvelopeRowValues | src/main/java/com/common/db/dialect/DbOpOracle.java:114-150 | An enveloped row's values are the inner row's values followed by its number. |
| DbOpOracle.ConvertRowDependsOnMetadata | src/main/java/com/common/db/dialect/DbOpOracle.java:114-150 | A row converts the same way under any cursor with the same columns and metadata class. |
| DbOpOracle.NoOffsetMatchesBaseline | src/main/java/com/common/db/dialect/DbOpOracle.java:114-150 | With start <= 0 and max >= 0, the override returns exactly the baseline search's records. |
| DbOpOracle.RownumReadsAsInt | src/main/java/com/common/db/dialect/DbOpOracle.java:54-58 | The row number reads back as that integer. |
| DbOpOracle.OffsetEnvelopeRows | src/main/java/com/common/db/dialect/DbOpOracle.java:90-94 | With an offset and no overflow, the envelope holds the baseline window's rows, each with its 1-based number appended. |
| DbOpOracle.OffsetMatchesBaselinePlusRownum | src/main/java/com/common/db/dialect/DbOpOracle.java:37-163 | With an offset, each array record (map records are not covered) is the baseline's record plus `start+i+1`. |
| DbOpOracle.NegativeMaxDiverges | src/main/java/com/common/db/dialect/DbOpOracle.java:90-94 | A negative max returns nothing on Oracle but every row after the offset in the baseline. |
| DbOpOracle.OverflowingBoundReturnsNothing | src/main/java/com/common/db/dialect/DbOpOracle.java:90-94 | When start+max overflows a Java int, the bound wraps negative and Oracle returns nothing. |
| DbOpMgr.FirstParen | src/main/java/com/common/db/DbOpMgr.java:41-43 | The first `(` separates an id into driver and version text. |
| DbOpMgr.GetIdInjective | src/main/java/com/common/db/DbOpMgr.java:41-43 | For drivers without `(`, equal ids mean equal driver text and equal version. |
| DbOpMgr.NullDriverAliasesNullText | src/main/java/com/common/db/DbOpMgr.java:41-43 | A null driver and the driver named "null" share every id. |
| DbOpMgr.Register | src/main/java/com/common/db/DbOpMgr.java:51-53 | The id maps to the registered executor, null included. Every other entry is unchanged. |
| DbOpMgr.RegisterAll | src/main/java/com/common/db/DbOpMgr.java:51-53 | Registering never touches the initialised flag. |
| DbOpMgr.RegisterAllUntouched | src/main/java/com/common/db/DbOpMgr.java:51-53 | Ids nobody registers keep their presence and entry. |
| DbOpMgr.RegisterAllLastWins | src/main/java/com/common/db/DbOpMgr.java:51-53 | The last registration of an id decides its entry. |
| DbOpMgr.OracleRegistrations | src/main/java/com/common/db/dialect/DbOpOracle.java:27-34 | The Oracle dialect registers the Oracle driver under versions 0, 8, 9 and 10. |
| DbOpMgr.GetDbOp | src/main/java/com/common/db/DbOpMgr.java:61-70 | The first call registers the defaults and marks the registry initialised; later calls change nothing. It returns the registered executor, or the base executor for an absent or null entry. |
| DbOpMgr.SecondLookupKeepsState | src/main/java/com/common/db/DbOpMgr.java:61-83 | Defaults are registered once: a second lookup leaves the state as the first left it. |
| DbOpMgr.OracleVersionsResolveToOracle | src/main/java/com/common/db/DbOpMgr.java:61-83 | On a fresh registry, every Oracle driver version resolves to the Oracle dialect, unless the MySQL dialect re-registers that id. |
| DbOpMgr.UnregisteredFallsBack | src/main/java/com/common/db/DbOpMgr.java:61-70 | An id nobody registered yields the base executor. |
| DbOpMgr.NullRegistrationFallsBack | src/main/java/com/common/db/DbOpMgr.java:66-69 | A null registration yields the base executor. |
| DbOp.Expand | src/main/java/com/common/db/DbOp.java:192-292 | Short overloads fill nulls, the window 0..DEFAULT_MAX and descending order. Whatever the caller passed is forwarded unchanged. |
| DbOp.FullOverloadCoversAll | src/main/java/com/common/db/DbOp.java:289-292 | The full overload forwards its arguments unchanged: every argument list is some full argument list. |
| DbOp.Run | src/main/java/com/common/db/DbOp.java:289-292 | Dispatch to the current executor. The base executor windows from start; the Oracle dialect pages in SQL and windows from 0. |
| DbOp.Initial | src/main/java/com/common/db/DbOp.java:23 | The facade starts on the base executor. |
| DbOp.EnableOptimize | src/main/java/com/common/db/DbOp.java:31-36 | The registry's answer always replaces the executor, and the default window is kept. |
| DbOp.EnableOracleSelectsOracle | src/main/java/com/common/db/DbOp.java:31-36 | Enabling an Oracle driver version selects the Oracle dialect. |
| DbOp.EnableUnknownResetsToBase | src/main/java/com/common/db/DbOp.java:31-36 | Enabling an unknown driver drops a previously chosen dialect. |
| DbOp.Insert | src/main/java/com/common/db/DbOp.java:45-58 | The short form asks for no key and returns 0. The long form requests keys with no column list. |
| DbOp.Update | src/main/java/com/common/db/DbOp.java:68-84 | The short form binds only data values. |
| DbOp.UpdateField | src/main/java/com/common/db/DbOp.java:95-98 | Equal to the map update of one field with no condition values. |
| DbOp.Delete | src/main/java/com/common/db/DbOp.java:107-121 | The short form binds nothing. |
| DbOp.GetOneRow | src/main/java/com/common/db/DbOp.java:133-183 | Fails iff conn or table is null, there is no row, or mustUnique and a second row. Otherwise it returns the first row as a map or an array. |
| DbOp.GetCount | src/main/java/com/common/db/DbOp.java:413-416 | A 32-bit count, 0 on an empty answer, with the count statement. |
| DbOp.Search | src/main/java/com/common/db/DbOp.java:192-401 | Records are of the requested form. Short overloads window 0..DEFAULT_MAX. Baseline and Oracle windows are as for the executors. |
| DbOp.ShortSearchSameOnOracle | src/main/java/com/common/db/DbOp.java:192-194 | Short overloads return the same records on the Oracle dialect as on the base executor. |
| DbOp.WholeTableOnOracle | src/main/java/com/common/db/DbOp.java:192-194 | The statement the Oracle dialect sends for a whole-table search. |
| DbcpManager.FactoryFor | src/main/java/com/common/db/DbcpManager.java:73-81 | Without a charset it uses url/user/password. With one it uses Properties, which throws iff the user or password is null and otherwise holds exactly those three keys. |
| DbcpManager.Init | src/main/java/com/common/db/DbcpManager.java:37-92 | A configured name returns its pool unchanged. An unloadable driver fails. Otherwise the new pool has the fixed timeouts and test-on-borrow, and the name is marked configured. Failures change nothing. |
| DbcpManager.GetConnection | src/main/java/com/common/db/DbcpManager.java:101-111 | Fails iff the pool name is not configured. |
| DbcpManager.ClearConnection | src/main/java/com/common/db/DbcpManager.java:118-125 | Drops the idle connections of a configured pool only. It leaves names and other pools unchanged. |
| DbcpManager.InitIsIdempotent | src/main/java/com/common/db/DbcpManager.java:52-59 | A second init of a name returns the first pool and changes nothing, whatever its arguments. |
| DbcpManager.InitThenBorrow | src/main/java/com/common/db/DbcpManager.java:84-111 | After a successful init, borrowing from the name reaches that pool. |
| DbcpManager.ClearKeepsPoolUsable | src/main/java/com/common/db/DbcpManager.java:101-125 | After clearing, borrowing still succeeds with the same configuration. |
| AbstractBizDb.GetConn | src/main/java/com/common/db/ext/AbstractBizDB.java:854-870 | Fails iff the pool is unconfigured. Otherwise it leases the connection in the requested auto-commit mode. |
| AbstractBizDb.CloseConn | src/main/java/com/common/db/ext/AbstractBizDB.java:878-896 | Nothing for null. Otherwise Close comes last and once, with Commit before it iff auto-commit is off. |
| AbstractBizDb.Borrow | src/main/java/com/common/db/ext/AbstractBizDB.java:90-98 | A failed borrow is the result and releases nothing. Otherwise the call's result comes back and the lease is released. |
| AbstractBizDb.WritesCommitReadsOnlyClose | src/main/java/com/common/db/ext/AbstractBizDB.java:878-896 | Writes commit then close; reads only close. |
| AbstractBizDb.EnableOptimize | src/main/java/com/common/db/ext/AbstractBizDB.java:36-41 | Picks the executor as the static facade does, keeping the pool. |
| AbstractBizDb.GetListFromFields | src/main/java/com/common/db/ext/AbstractBizDB.java:70-79 | Copies the names in order, and null stays null. |
| AbstractBizDb.Insert | src/main/java/com/common/db/ext/AbstractBizDB.java:90-128 | Write lifecycle. Fails iff table or map is null. The insert statement and key request are the executor's. |
| AbstractBizDb.InsertIfNotExists | src/main/java/com/common/db/ext/AbstractBizDB.java:139-147 | Write lifecycle. A key is always requested. |
| AbstractBizDb.Update | src/main/java/com/common/db/ext/AbstractBizDB.java:163-212 | Write lifecycle. The short form binds only data values. |
| AbstractBizDb.UpdateField | src/main/java/com/common/db/ext/AbstractBizDB.java:184-193 | Write lifecycle. Binds just the one value. |
| AbstractBizDb.Delete | src/main/java/com/common/db/ext/AbstractBizDB.java:221-250 | Write lifecycle. The short form binds nothing. |
| AbstractBizDb.ExecSql | src/main/java/com/common/db/ext/AbstractBizDB.java:947-954 | Write lifecycle over the executor's loop as written: every statement runs once, in order, except the last 30 of a list whose length is a positive multiple of 30. |
| AbstractBizDb.ExecSqlCorrected | src/main/java/com/common/db/ext/AbstractBizDB.java:947-954 | Corrected: write lifecycle, every statement runs once, in order. |
| AbstractBizDb.ExecSqlAgreesOffMultiples | src/main/java/com/common/db/ext/AbstractBizDB.java:947-954 | Unless the list's length is a positive multiple of 30, the facade as written and the corrected one give the same outcome. |
| AbstractBizDb.Search | src/main/java/com/common/db/ext/AbstractBizDB.java:259-559 | Read lifecycle. Short forms use the window 0..DEFAULT_MAX, and records are of the requested form. |
| AbstractBizDb.GetOneRowAsMap | src/main/java/com/common/db/ext/AbstractBizDB.java:636-676 | Read lifecycle. Returns the first row as a map, a second row failing when unique. |
| AbstractBizDb.GetOneRowAsArray | src/main/java/com/common/db/ext/AbstractBizDB.java:570-595 | Read lifecycle. Succeeds iff exactly one row. |
| AbstractBizDb.GetOneRowAsArrayAsWritten | src/main/java/com/common/db/ext/AbstractBizDB.java:614-625 | The flag is dropped: success still needs exactly one row. |
| AbstractBizDb.GetOneRowAsArrayFlagged | src/main/java/com/common/db/ext/AbstractBizDB.java:614-625 | With the flag passed on, a non-unique request accepts the first of several rows. |
| AbstractBizDb.ArrayFormIgnoresMustUnique | src/main/java/com/common/db/ext/AbstractBizDB.java:614-625 | With two rows and mustUnique false, the as-written form fails and the flagged form succeeds. |
| AbstractBizDb.FlaggedArrayMatchesMap | src/main/java/com/common/db/ext/AbstractBizDB.java:614-676 | The flagged array form and the map form succeed on the same calls. |
| AbstractBizDb.GetCount | src/main/java/com/common/db/ext/AbstractBizDB.java:685-751 | Read lifecycle, 32-bit count, with the condition's binds. |
| AbstractBizDb.GetCountOf | src/main/java/com/common/db/ext/AbstractBizDB.java:710-715 | The single value is bound alone. |
| AbstractBizDb.MaxInt | src/main/java/com/common/db/ext/AbstractBizDB.java:753-771 | Read lifecycle, a `max` query. |
| AbstractBizDb.MinInt | src/main/java/com/common/db/ext/AbstractBizDB.java:782-791 | Read lifecycle, a `min` query. |
| AbstractBizDb.MinIntShortAsWritten | src/main/java/com/common/db/ext/AbstractBizDB.java:773-780 | The short getMinInt issues a `max` query. |
| AbstractBizDb.MinIntShort | src/main/java/com/common/db/ext/AbstractBizDB.java:773-780 | Corrected: issues a `min` query with no binds. |
| AbstractBizDb.ShortMinIntAsksForMax | src/main/java/com/common/db/ext/AbstractBizDB.java:773-780 | As written, its statement equals getMaxInt's and differs from the corrected one. |
| AbstractBizDb.ObjectCondition | src/main/java/com/common/db/ext/AbstractBizDB.java:828-844 | `id = param`, then ` AND other` whenever other is non-null, even when empty. |
| AbstractBizDb.ValueCondition | src/main/java/com/common/db/ext/AbstractBizDB.java:910-940 | `field='v'` for strings, `field=v` otherwise. ` and other` is added only when other is non-empty. |
| AbstractBizDb.EmptyOtherCondition | src/main/java/com/common/db/ext/AbstractBizDB.java:828-940 | An empty extra condition: getValue drops it, getObjectFromID appends a dangling ` AND `. |
| AbstractBizDb.ObjectLookupSql | src/main/java/com/common/db/ext/AbstractBizDB.java:828-844 | The exact SELECT getObjectFromID sends. |
| AbstractBizDb.GetObjectFromId | src/main/java/com/common/db/ext/AbstractBizDB.java:807-844 | Null when nothing matches, else column 0 of the first record. A null table fails. |
| AbstractBizDb.GetValue | src/main/java/com/common/db/ext/AbstractBizDB.java:902-940 | A null field throws before borrowing. Otherwise the answer is whether any row matches, and failures answer false. |
| SqlUtil.ScrubLine | src/main/java/com/common/util/SQLUtil.java:17 | A line with a quote, semicolon or `--` becomes one space; a clean line is kept. The result is always clean. |
| SqlUtil.LineEnd | src/main/java/com/common/util/SQLUtil.java:17 | The first line terminator, or the end of the text. |
| SqlUtil.FirstLine | src/main/java/com/common/util/SQLUtil.java:17 | Cutting off a first line splits the lines and terminators accordingly. |
| SqlUtil.TransactKeepsTerminators | src/main/java/com/common/util/SQLUtil.java:16-18 | The output keeps the input's line terminators, in order. |
| SqlUtil.TransactScrubsEachLine | src/main/java/com/common/util/SQLUtil.java:16-18 | Output line k is input line k scrubbed. |
| SqlUtil.TransactLineByLine | src/main/java/com/common/util/SQLUtil.java:16-18 | The same terminators and the same number of lines, each line scrubbed. |
| SqlUtil.NoInjectionSurvives | src/main/java/com/common/util/SQLUtil.java:16-18 | No output line holds a quote, semicolon or `--`. |
| SqlUtil.CleanTextUnchanged | src/main/java/com/common/util/SQLUtil.java:16-18 | Text with only clean lines comes back unchanged. |
| SqlUtil.SuspiciousLineBecomesSpace | src/main/java/com/common/util/SQLUtil.java:16-18 | A suspicious line comes out as a single space. |
| SqlUtil.TransactIdempotent | src/main/java/com/common/util/SQLUtil.java:16-18 | Scrubbing twice is scrubbing once. |
| DbUrlUtils.ExpandReplacement | src/main/java/com/common/util/DbUrlUtils.java:72-77 | Reading a replaceFirst replacement fails only as an illegal replacement, and without `$` it never grows the text. |
| DbUrlUtils.GroupZeroSwallowsZeros | src/main/java/com/common/util/DbUrlUtils.java:72-77 | `$0` followed by any run of 0s stands for the matched text once: the 0s are part of the group reference. |
| DbUrlUtils.PlainReplacementIsLiteral | src/main/java/com/common/util/DbUrlUtils.java:72-77 | A replacement without `$` or `\` is inserted literally. |
| DbUrlUtils.DollarWithoutZeroFails | src/main/java/com/common/util/DbUrlUtils.java:72-77 | A `$` not followed by a group number makes replaceFirst throw. |
| DbUrlUtils.DoubleBackslashes | src/main/java/com/common/util/DbUrlUtils.java:77 | Doubling backslashes adds no `$`. |
| DbUrlUtils.DoubledPathArrivesIntact | src/main/java/com/common/util/DbUrlUtils.java:77 | A `$`-free path with doubled backslashes arrives intact. |
| DbUrlUtils.QuotedTextArrivesIntact | src/main/java/com/common/util/DbUrlUtils.java:77 | A fully quoted text arrives verbatim. |
| DbUrlUtils.FindFrom | src/main/java/com/common/util/DbUrlUtils.java:72-77 | Finds the first occurrence at or after a position. |
| DbUrlUtils.ReplaceFirst | src/main/java/com/common/util/DbUrlUtils.java:72-77 | A null replacement throws, and no occurrence leaves the text unchanged. |
| DbUrlUtils.ReplaceFirstAfterPlainText | src/main/java/com/common/util/DbUrlUtils.java:72-77 | A placeholder after `$`-free text is the occurrence replaced. |
| DbUrlUtils.Slots | src/main/java/com/common/util/DbUrlUtils.java:30-71 | The literal text around host, port and path holds no `$`. |
| DbUrlUtils.ActualPath | src/main/java/com/common/util/DbUrlUtils.java:96-122 | A path not starting with "." is used as given. |
| DbUrlUtils.FillCharSet | src/main/java/com/common/util/DbUrlUtils.java:74-76 | No charSet step unless the URL mentions charSet. |
| DbUrlUtils.FillRac | src/main/java/com/common/util/DbUrlUtils.java:78-85 | RAC needs the extra parameters; success needs both of their keys. |
| DbUrlUtils.FillPattern | src/main/java/com/common/util/DbUrlUtils.java:72-77 | A null host throws, and success needs a path. |
| DbUrlUtils.Generate | src/main/java/com/common/util/DbUrlUtils.java:26-88 | A null type or host throws, and success needs a path. RAC fills the second node; other types fill their pattern with the resolved path. |
| DbUrlUtils.FillPlain | src/main/java/com/common/util/DbUrlUtils.java:72-77 | A plain placeholder fill after plain text. |
| DbUrlUtils.OnlyPathPlaceholderLeft | src/main/java/com/common/util/DbUrlUtils.java:74-77 | Once only `${path}` is left, no other placeholder is found. |
| DbUrlUtils.PortIsPlain | src/main/java/com/common/util/DbUrlUtils.java:73 | A printed port needs no escaping. |
| DbUrlUtils.FillHostAndPort | src/main/java/com/common/util/DbUrlUtils.java:72-73 | The host and port land verbatim in their slots. |
| DbUrlUtils.FillPatternChain | src/main/java/com/common/util/DbUrlUtils.java:72-77 | The fill reaches its path step when the earlier steps succeed. |
| DbUrlUtils.FillUpToPath | src/main/java/com/common/util/DbUrlUtils.java:72-77 | Up to the path step the fill is plain substitution. |
| DbUrlUtils.PlainSettingsFillPattern | src/main/java/com/common/util/DbUrlUtils.java:72-77 | Plain settings give the pattern with each slot replaced verbatim. |
| DbUrlUtils.PlainSettingsGiveUrl | src/main/java/com/common/util/DbUrlUtils.java:26-88 | For each host/port/path type, plain settings give the expected URL. |
| DbUrlUtils.DollarInPathFails | src/main/java/com/common/util/DbUrlUtils.java:77 | As written, a path whose first `$` is not followed by 0 makes genUrl throw, though it works without it. |
| DbUrlUtils.BackslashFreeNotDoubled | src/main/java/com/common/util/DbUrlUtils.java:77 | Without backslashes, doubling changes nothing. |
| DbUrlUtils.QuotedPathArrivesVerbatim | src/main/java/com/common/util/DbUrlUtils.java:77 | Corrected: any path arrives verbatim. |
| DbUrlUtils.QuotingChangesOnlyDollarPaths | src/main/java/com/common/util/DbUrlUtils.java:77 | The correction agrees with the original wherever the path is `$`-free. |
| DbUrlUtils.DollarInHostFails | src/main/java/com/common/util/DbUrlUtils.java:72 | A host with a bad `$` makes the fill throw. |
| DbUrlUtils.ReplaceFirstAt | src/main/java/com/common/util/DbUrlUtils.java:72-77 | Replaces the earliest occurrence. |
| DbUrlUtils.DollarOnlyOpensPath | src/main/java/com/common/util/DbUrlUtils.java:55 | In the MySQL tail, the only `$` opens `${path}`. |
| DbUrlUtils.CharSetFirstAfterPath | src/main/java/com/common/util/DbUrlUtils.java:55 | The `${charSet}` after the path is the first one. |
| DbUrlUtils.FillCharSetAfterPath | src/main/java/com/common/util/DbUrlUtils.java:74-76 | A plain charSet lands in its slot. |
| DbUrlUtils.FillPathAfterPlain | src/main/java/com/common/util/DbUrlUtils.java:77 | A `$`-free path lands verbatim after plain text. |
| DbUrlUtils.PlainSettingsFillCharSetPattern | src/main/java/com/common/util/DbUrlUtils.java:72-77 | Plain settings fill a charSet pattern verbatim. |
| DbUrlUtils.MySqlUrl | src/main/java/com/common/util/DbUrlUtils.java:53-56 | MySQL gives `jdbc:mysql://ip:port/path?useUnicode=true&characterEncoding=cs&useSSL=false&serverTimezone=UTC`. |
| DbUrlUtils.MySqlSlotsPlain | src/main/java/com/common/util/DbUrlUtils.java:55 | The MySQL literal text holds no `$`. |
| DbUrlUtils.GetDriver | src/main/java/com/common/util/DbUrlUtils.java:124-161 | A null type throws; otherwise each type gets its own driver class. |
| DbUrlUtils.OracleDriverIffOracleFamily | src/main/java/com/common/util/DbUrlUtils.java:124-131 | The Oracle driver is chosen iff the type is service name, SID or RAC. |
| DbUrlUtils.SqlFileNameAsWritten | src/main/java/com/common/util/DbUrlUtils.java:202-238 | A null type throws, and names end in `.sql`. |
| DbUrlUtils.SqlFileName | src/main/java/com/common/util/DbUrlUtils.java:202-238 | Corrected: the same, with service name mapped to the Oracle script. |
| DbUrlUtils.SqlFilePathAsWritten | src/main/java/com/common/util/DbUrlUtils.java:163-200 | The path is the directory, the separator, then the name. |
| DbUrlUtils.SqlFilePath | src/main/java/com/common/util/DbUrlUtils.java:163-200 | Corrected: the same, with the corrected name. |
| DbUrlUtils.ServiceNameGetsSqliteScript | src/main/java/com/common/util/DbUrlUtils.java:202-238 | As written, the service-name type gets the Oracle driver but the SQLite script. |
| DbUrlUtils.OracleScriptIffOracleFamily | src/main/java/com/common/util/DbUrlUtils.java:202-238 | Corrected: the Oracle script goes to exactly the Oracle family. |
| DbUrlUtils.CorrectionOnlyTouchesServiceName | src/main/java/com/common/util/DbUrlUtils.java:202-238 | The correction changes only the service-name type. |

## Left out

- JDBC I/O (statement preparation, execution, cursors, metadata) is not modelled as code. Each read takes the answer cursor as a parameter, and each write returns the statement it prepares.
- Logging, timing (`execSQLTime`) and exception message text are not modelled; failures carry only their kind.
- `synchronized` and all concurrency are not modelled: every state is a value passed in and out.
- The MySQL dialect's executor is not part of this model. Its self-registration is an input list of registrations, and the facades' search is modelled on the base executor and the Oracle dialect only (`DbOp.Modelled`).
- `IDbOp.DEFAULT_MAX` is not part of this model; its value is a parameter of the facade state.
- File-system canonicalisation in getActualPath is a pair of parameters (the canonical and the absolute form).
- Byte decoding of binary columns is a constructor applied to the bytes; character sets are not modelled.
- The pooling library is modelled by its observable state: configured names, pools and idle counts. Eviction threads and physical connections are out of scope.
- AbstractBizDb.GetValue: the failures swallowed inside the try block are modelled as the false answer; the specific exceptions are not distinguished.
- DbOpOracle.Search: the server's paging is modelled by RownumEnvelope over the inner answer. Oracle's ROWNUM semantics beyond numbering from 1 are not modelled.
- AbstractBizDb.MaxInt: the `(Integer)` cast of the driver's object is not modelled; the result is the driver's object.
- AbstractBizDb.MinInt: likewise, the `(Integer)` cast of getMin's object is not modelled; the result is the driver's object.
- ResultRows.GetInt: a number outside the 32-bit range wraps to its low 32 bits; JDBC drivers raise an SQLException there instead, which the model does not represent. BigDecimal.intValue on DECIMAL does wrap.
- DbOpBase.LegalUserName: `toUpperCase` is modelled on ASCII letters only; Unicode case mapping and the locale are not modelled. DbOpBase.IsOracleProduct's `toLowerCase` has the same restriction.
- DbOpBase.IsNotEmpty: EmptyUtils is not part of this model; its isNotEmpty is taken to mean non-null with at least one character.
- Spring configuration glue outside the named classes is out of scope.

## Findings

| source | as written | input that shows it | evidently intended | confidence | as-written member | corrected member |
|---|---|---|---|---|---|---|
| src/main/java/com/common/db/DbOpBase.java:1102-1115 | The last batch length is the remainder `n % 30`, also when it is 0 | 30 statements: one loop turn with an empty batch; any positive multiple of 30 drops its last 30 | Every statement runs exactly once | not executed | DbOpBase.AsWrittenRunsPrefix | DbOpBase.BatchesCover |
| src/main/java/com/common/util/DbUrlUtils.java:202-238 | ORACLE_SERVICE_NAME has no case and falls to the default | type ORACLE_SERVICE_NAME gives `sqlite.sql` | `oracle.sql` for the Oracle family, as getDriver does | not executed | DbUrlUtils.ServiceNameGetsSqliteScript | DbUrlUtils.OracleScriptIffOracleFamily |
| src/main/java/com/common/util/DbUrlUtils.java:77 | Only backslashes of the path are escaped before replaceFirst | path `db$x` (a `$` not followed by 0) makes replaceFirst throw | Any path lands verbatim | not executed | DbUrlUtils.DollarInPathFails | DbUrlUtils.QuotedPathArrivesVerbatim |
| src/main/java/com/common/db/ext/AbstractBizDB.java:773-780 | The short getMinInt calls getMaxInt | any table: the statement is `select max(...)` | A `min` query | not executed | AbstractBizDb.ShortMinIntAsksForMax | AbstractBizDb.MinIntShort |
| src/main/java/com/common/db/ext/AbstractBizDB.java:614-625 | The mustUnique argument is not passed on | mustUnique false and two matching rows: fails | The first row, as the map form gives | not executed | AbstractBizDb.ArrayFormIgnoresMustUnique | AbstractBizDb.GetOneRowAsArrayFlagged |
