# fde: the CA table, its data-access object and the monthly report

`fde` is a single-user command-line tool that records, for each working day,
the revenue (`ca`), the hours worked (`hours`), the overtime hours (`hsup`) and
an optional comment, in one SQLite table named `CA` keyed by the date
`YYYY-MM-DD`. This project models, in Dafny, the part of the program that reads
and writes that table and aggregates a month:

- `CaDaoSqlite` (src/cadaosqlite.rs): one SQL statement per method. The table
  is a `map<string, Ca>` from date to row held in the class field `table`;
  `add`, `update` and `del` reassign it, the other methods only read it.
- `Ca::new`, `Ca::save`, `Ca::delete` (src/ca.rs): lookup-or-create of a day,
  and write-through of a record.
- `CaMonth::retrieve_datas` (src/camonth.rs): the four queries that fill a
  month, run in order and stopping at the first error.
- From src/main.rs: `extract_date`, the classification of each command-line
  argument, the loop over the arguments, `get_month` and the menu loop of
  `process_day`.

Files: `dates.dfy` (calendar days, the `YYYY-MM-DD` key and the `YYYY-MM`
month prefix), `collation.dfy` (SQLite's text order and the sorted listing an
`ORDER BY date` returns), `cadaosqlite.dfy`, `ca.dfy`, `camonth.dfy`,
`main.dfy`.

Storage failures are explicit. Whether the SQLite engine reports an error for
a statement (the file cannot be opened, the statement cannot be prepared or
run) is not something the model can compute. Each statement therefore takes a
parameter `io: Io` (`Works` or `Fails`). A method that runs several statements
takes one such parameter per statement. Errors come back as
`Result<T> = Ok(value) | Err(DbError)`, with `DbError` one of
`EngineFailure`, `QueryReturnedNoRows` (`get` of an absent day),
`PrimaryKeyConflict` (`add` of a stored day) and `InvalidColumnType` (a monthly
`SUM` over no row is NULL and does not read as a float).

Three behaviours of the code that are easy to miss:

- The monthly sums of an empty month are an error (`InvalidColumnType`), not
  `0.0`. The code reads `SUM(...)` straight into an `f64`
  (src/cadaosqlite.rs:137-139), so `retrieve_datas` fails at its first step
  for a month with no row and `get_month` reports the error.
- `retrieve_datas` is not atomic. The fields assigned before the failing step
  keep their new values (src/camonth.rs:37-40).
- Errors of `Ca::new`, `save` and `delete` are printed and then swallowed. No
  error reaches the caller: `Ca::new` always returns a record.

Amounts are modelled as `real`. The `f32` columns and the `f64` sums are not
reproduced bit for bit.

## Model

| member | source | states |
|---|---|---|
| `Dates.DateKey` | src/cadaosqlite.rs:31 | the key of a day is 10 characters `YYYY-MM-DD`, and its month prefix is a prefix of it |
| `Dates.MonthPrefix` | src/cadaosqlite.rs:112 | the month pattern without its `%` is the 7 characters `YYYY-MM` |
| `Dates.KeyOrderIsChronological` | src/cadaosqlite.rs:111 | for four-digit years, key order is calendar order, and two keys are equal exactly when their days are equal |
| `Dates.MonthFilterSelectsMonth` | src/cadaosqlite.rs:112 | `LIKE 'YYYY-MM%'` keeps the key of a day exactly when the day lies in that year and month |
| `Collation.SortedKeys` | src/cadaosqlite.rs:111 | `ORDER BY` on the key lists every selected key once, nothing else, in strictly ascending order |
| `Collation.AscendingUnique` | src/cadaosqlite.rs:111 | two strictly ascending listings of the same keys are equal, so the order of the answer is fully determined |
| `Dao.MonthKeysAreMonthDays` | src/cadaosqlite.rs:112 | the month filter anchored at a day keeps a stored day exactly when it lies in the anchor's year and month |
| `Dao.MonthRows` | src/cadaosqlite.rs:111-112 | the answer of the month query lists the rows stored under the selected keys in ascending key order |
| `Dao.MonthRowsListsMonth` | src/cadaosqlite.rs:108-126 | the month's rows are stored rows, unchanged; they hold exactly the dates with the prefix, each once, in strictly ascending order; their number is the number of matching rows |
| `Dao.MonthRowsUnique` | src/cadaosqlite.rs:111 | any listing with those properties is the query's answer |
| `Dao.MonthRowsChronological` | src/cadaosqlite.rs:111-112 | rows of a month lie in that month, and an earlier row is an earlier day |
| `Dao.StoredDayInMonth` | src/cadaosqlite.rs:112 | a stored day appears, as stored, among the rows of any month anchored in the same year and month |
| `Dao.TotalAppend` | src/cadaosqlite.rs:137 | the column total of two row lists put together is the sum of their totals |
| `Dao.TotalReorder` | src/cadaosqlite.rs:137 | the column total of the same rows is the same in any order |
| `Dao.SqlSumIgnoresOrder` | src/cadaosqlite.rs:137-139 | `SUM` over the same rows in any order gives the same answer, NULL included, so the unordered sum agrees with the sum over the ordered month listing |
| `Dao.UpdatedMeaning` | src/cadaosqlite.rs:78-82 | overwriting the four non-key columns of the matching row replaces it by the record; with no matching row nothing changes; the date stays the key |
| `Dao.UpdatedIdempotent` | src/cadaosqlite.rs:78-82 | a second identical update changes nothing |
| `Dao.Deleted` | src/cadaosqlite.rs:65 | deleting a date removes that key and keeps every other row unchanged |
| `Dao.CaDaoSqlite.Exist` | src/cadaosqlite.rs:26-34 | true exactly when the table holds the key `YYYY-MM-DD` of the day; an engine error is returned as an error |
| `Dao.CaDaoSqlite.Get` | src/cadaosqlite.rs:41-55 | returns the stored row unchanged, fails with `QueryReturnedNoRows` when the day is absent, and writes nothing |
| `Dao.CaDaoSqlite.Del` | src/cadaosqlite.rs:62-68 | removes exactly the row dated `c.date`; an absent date succeeds with no change; on error the table is unchanged |
| `Dao.CaDaoSqlite.Update` | src/cadaosqlite.rs:75-84 | replaces only the row dated `c.date` by `c`; an absent date succeeds with no change; on error the table is unchanged |
| `Dao.CaDaoSqlite.Add` | src/cadaosqlite.rs:91-100 | inserts `c` and leaves every other row unchanged; a stored date fails with a key conflict and changes nothing |
| `Dao.CaDaoSqlite.DatasForMonth` | src/cadaosqlite.rs:108-126 | `ca_tab` is the month query's answer, pushed in query order |
| `Dao.CaDaoSqlite.CaForMonth` | src/cadaosqlite.rs:134-141 | the total revenue over exactly the month's rows; an empty month is `InvalidColumnType` |
| `Dao.CaDaoSqlite.HoursForMonth` | src/cadaosqlite.rs:149-156 | the total hours over exactly the month's rows; an empty month is `InvalidColumnType` |
| `Dao.CaDaoSqlite.HsupForMonth` | src/cadaosqlite.rs:164-171 | the total overtime over exactly the month's rows; an empty month is `InvalidColumnType` |
| `Lifecycle.LookupOrCreate` | src/ca.rs:35-54 | `Ca::new` returns a record dated with the day's `YYYY-MM-DD` key on every path, and keeps the date the table's key |
| `Lifecycle.LookupOrCreateStores` | src/ca.rs:38-50 | without failure, the returned record is what the table holds for the day afterwards; a stored day is returned as stored with no write; an absent day gains exactly the zero template; no other row changes |
| `Lifecycle.LookupOrCreateFailure` | src/ca.rs:43-51 | on any storage failure the zero template is returned and the table is not modified |
| `Lifecycle.LookupOrCreateTwice` | src/ca.rs:38-50 | without storage failure, two successive calls return equal records and the second writes nothing |
| `Lifecycle.CreatedDayInMonth` | src/ca.rs:37 | without storage failure, the record `Ca::new(day)` returns is listed in the month of any day of the same year and month |
| `Lifecycle.New` | src/ca.rs:35-54 | runs `exist` then `get` or `add`, and returns and leaves exactly what `LookupOrCreate` describes |
| `Lifecycle.SaveRoundTrip` | src/ca.rs:70-76 | when `update` works, reading the day back after `save` gives the record, only that row changes, and an absent day is left absent; when it fails, the table is unchanged |
| `Lifecycle.DeleteIdempotent` | src/ca.rs:59-65 | when `del` works, the day is absent after `delete`, a second `delete` changes nothing, and other rows are kept; when it fails, the table is unchanged |
| `Lifecycle.Save` | src/ca.rs:70-76 | the table effect of `save` is that of `update` |
| `Lifecycle.Delete` | src/ca.rs:59-65 | the table effect of `delete` is that of `del` |
| `Month.CaMonth.constructor` | src/main.rs:78 | a month starts with zero totals and no rows |
| `Month.CaMonth.RetrieveDatas` | src/camonth.rs:34-42 | steps run in the order revenue, hours, overtime, rows and stop at the first failure; earlier fields hold the new values and later ones are untouched; an empty month fails at the first step; on success the totals are the sums over `datas`, `datas` is the month's listing, `day` is unchanged and the table is only read |
| `Cli.IndexOfEquals` | src/main.rs:92-93 | finds the first `=`: it is an `=` and none comes before it; none is found only when there is no `=` |
| `Cli.AfterFirstEquals` | src/main.rs:89-96 | the result of `extract_date` is always a suffix of the argument, never longer |
| `Cli.ExtractDate` | src/main.rs:89-96 | the scanning loop returns what follows the first `=`, or the whole argument |
| `Cli.ExtractAfterFlag` | src/main.rs:92-93 | for `p=s` with no `=` in `p` the result is `s`, further `=` included |
| `Cli.ExtractWithoutEquals` | src/main.rs:95 | an argument without `=` is returned unchanged |
| `Cli.Classify` | src/main.rs:35-50 | the first matching arm: `fde` anywhere is the welcome; `--help` and `-h`, and only they, are help; an argument is a month command exactly when it contains `-m` and not `fde` (`--month` adds nothing), and a day command exactly when it contains `-d` but neither `-m` nor `fde` |
| `Cli.MonthBeforeDay` | src/main.rs:36-44 | an argument containing both `-m` and `-d` (and not `fde`) is a month command |
| `Cli.MonthFlags` | src/main.rs:38 | `--month=s` and `-m=s` are month commands exactly when `s` does not contain `fde` |
| `Cli.DayFlags` | src/main.rs:44 | `--day=s` and `-d=s` are day commands exactly when `s` contains neither `-m` nor `fde` |
| `Cli.Dispatch` | src/main.rs:35-51 | welcome, help, month, day and unknown actions are taken exactly for their commands; a month shows the parsed date, or today when it does not parse; a day command opens the parsed date, or only reports the error when it does not parse; for a real today and a parser of real dates, every shown or opened day is a real day |
| `Cli.RunArgs` | src/main.rs:30-53 | every argument, in order, gets its own action; an unknown one does not stop the loop; every shown or opened day is a real day |
| `Cli.GetMonth` | src/main.rs:77-83 | the month is shown exactly when all four statements work on a non-empty month, and then holds the month's rows and their totals; a failure returns `InvalidColumnType` when the revenue sum runs on an empty month and `EngineFailure` otherwise; an empty month leaves the zero-filled month and returns the first step's error |
| `Cli.FirstRecognised` | src/main.rs:62-67 | locates the first choice among `d`, `m`, `s`, `q`; every earlier choice is unrecognised |
| `Cli.ProcessDay` | src/main.rs:59-71 | fetches or creates the day, skips unrecognised choices, and performs exactly one action for the first recognised one (delete, edit then save, save, or nothing) |

## Left out

- The schema of the `CA` table is not part of the source files. The model assumes that `date` is its primary key. `Keyed`, the `PrimaryKeyConflict` of `add` and the single row per day all rest on that assumption. It also assumes the column order `date, ca, hours, hsup, comment`: `get` and `datas_for_month` read `hours` and `hsup` by position (src/cadaosqlite.rs:49-50, 116-117), so `Get` returning the stored row unchanged rests on that order too.
- Opening and closing the SQLite connection, and the SQL engine itself. The table is the map; whether a statement fails is the `io` parameter.
- The `url` field of `CaDaoSqlite` and the constant `DB_URL`: the object stands for the one file it points to. The constants `AUTHOR`, `VERSION`, `VDATE` are not modelled.
- Years outside 0..9999. chrono writes them with a sign or more than four digits; `DateKey` is defined for four-digit years only. `Ca::new` builds the key with `day.to_string()` (src/ca.rs:37) and the queries with `format("%Y-%m-%d")` (src/cadaosqlite.rs:31); both give the same text for these years and both are `DateKey` here.
- Floating point: `f32` fields and `f64` sums are modelled as `real`, with no rounding.
- Rows that do not decode: a stored row is always a well-typed `Ca`, so the per-row `?` in the push loop of `datas_for_month` cannot fail here.
- The `Display` implementation of `Ca` and all printing, including the messages printed by `Ca::new`, `save`, `delete` and `main`.
- chrono's `parse_from_str` and `Local::now`. The parser is the function parameter `parse` and today is the parameter `today`.
- src/dialog.rs. The menu reads one trimmed line per choice; here the choices are a given sequence of already-trimmed strings. `dialog_ca`, with its `unwrap` on number parsing, is replaced by the values it would read (`Entry`). The delta/bonus computation of the monthly report is not modelled.
- Cli.ProcessDay: when the given choices run out with none recognised, the model stops with no action. The program would keep reading standard input.
- Cli.RunArgs: produces the action for each argument. Running `get_month` and `process_day` for them is modelled separately by `Cli.GetMonth` and `Cli.ProcessDay`.
