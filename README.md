# trk: the metric store, the selector and the command layer

`trk` is a command-line tracker for numeric metrics. A *series* is a named
metric with a unit. A *measurement* of a series is a value with a clock
reading and a run number, and the runs of a series count 1, 2, 3, ... in
insertion order. The program keeps both in two SQLite tables. It adds
measurements one at a time or in bulk from standard input, and it plots the
newest ones, optionally with a table beneath.

This project models three parts of the program:

- **The store** (`data.dfy`, module `Data`). The `DataSource` class holds the
  two tables as sequences of rows. Each SQL statement becomes a pure effect
  function on `Tables`: `CreateEffect`, `Insert`, `MeasureEffect`,
  `DeleteEffect` and `Query`. The class methods are proved to perform exactly
  those effects.
  - `WellFormed` is the invariant that every effect keeps. Series ids
    ascend. No measurement outlives its series. The runs of each series are
    numbered 1..n.
  - Where the store ends the whole process (`process::exit(1)`), the result is
    `Exit(1)`.
  - Clock readings (`strftime('%s','now')`) are passed in as `now`.
- **The selector** (`menu.dfy`, module `Menus`).
  - `React` is the effect of one key, and `Run` folds it over a key sequence.
  - `Choose` is what `show` returns: the item, an exit with code 0, or the
    out-of-bounds panic of an empty menu.
  - The `Menu` class's `Show` is proved to equal `Run` and `Choose`.
  - `Redraw` is proved to produce `Frame`: one line per item, with the `o`
    marker on the selected one.
- **The command layer** (`lib.dfy`, module `Lib`).
  - `add-bulk` is `BulkEffect`, folded over the input lines:
    - a blank line is skipped;
    - a line without `=` draws a warning;
    - the name is the text before the first `=`;
    - the value is the rest with its leading `=` signs trimmed;
    - a value that does not parse ends the process with code 1, and so does
      `measure`.
  - The `AddBulk` method is proved to compute `BulkEffect`.
  - `plot --table` labels its rows `len - i`.
  - `plot` draws the measurements oldest first, behind an origin point.

`Outcomes` (`outcomes.dfy`) holds the shared `Option` and `Outcome` types.

The series table does not make names unique. `create_series` inserts a second
row under a name that is already in use, and lookups keep finding the first
row with that name. The model follows the code here, not the
one-series-per-name reading that `get_series`, which returns one row, suggests.

## Model

| member | source | states |
|---|---|---|
| Data.MaxId | src/data.rs:32-36 | The largest id in the series table, 0 when it is empty. Its own contract says only that it is never negative; that new ids exceed it is `NextIdFresh`. |
| Data.NextId | src/data.rs:104-105 | The id SQLite assigns to a new series row is at least 1. |
| Data.NextIdFresh | src/data.rs:104-106 | The id given to a new series is larger than every id already in the table, so it is fresh. |
| Data.FirstNamed | src/data.rs:165-177 | A found position is inside the table and holds a row with that name. |
| Data.FirstNamedIsFirst | src/data.rs:164-184 | The lookup fails exactly when no row has the name. A found row is the first one with the name. |
| Data.SeriesWithout | src/data.rs:137-140 | Deleting by id never lengthens the series table. Which rows stay is `SeriesWithoutMembers`. |
| Data.SeriesWithoutMembers | src/data.rs:137-140 | `delete from series where id = ?` keeps exactly the rows with other ids. |
| Data.SeriesWithoutAscending | src/data.rs:137-140 | Deleting a series row keeps the ids ascending. |
| Data.AscendingAppend | src/data.rs:104-105 | Appending a row whose id exceeds all others keeps the ids ascending. |
| Data.AscendingPrefix | src/data.rs:32-36 | A prefix of a table with ascending ids also has ascending ids. |
| Data.RowsOf | src/data.rs:58-63 | Selecting the rows of one series never yields more rows than the table holds. Which rows it selects is `RowsOfMembers`. |
| Data.Without | src/data.rs:132-135 | Deleting one series' measurements removes exactly as many rows as that series has. |
| Data.WithoutMembers | src/data.rs:132-135 | `delete from measurement where series = ?` keeps exactly the rows of the other series. |
| Data.MaxRun | src/data.rs:96 | `coalesce(max(run), 0)` bounds the run of every row, and is 0 over no rows. That some row attains it is `MaxRunAttained`. |
| Data.MaxRunIsMax | src/data.rs:96 | `max(run)` bounds every run, and some row attains it when there are rows. |
| Data.MaxRunBounds | src/data.rs:96 | Every run is at most `max(run)`. |
| Data.MaxRunAttained | src/data.rs:96 | Over rows that exist, some row's run equals `max(run)`. |
| Data.MaxRunNumbered | src/data.rs:96 | When the runs are numbered 1..n, `coalesce(max(run), 0)` is n. |
| Data.AppendNumbered | src/data.rs:92-100 | Appending run n + 1 to a series numbered 1..n keeps the numbering, and other series are unaffected. |
| Data.InsertByTime | src/data.rs:58-63 | Insertion into the newest-first order adds exactly one element and keeps all the others. |
| Data.OrderedCons | src/data.rs:62 | A measurement at least as new as the rest can go in front of a newest-first list. |
| Data.InsertByTimeOrdered | src/data.rs:62 | Inserting into a newest-first list keeps it newest first. |
| Data.NewestFirst | src/data.rs:58-63 | `order by timestamp desc` is a permutation of the rows, ordered newest first. |
| Data.RowsOfAppend | src/data.rs:92-100 | After an insert, the rows of a series are its old rows plus the new row if the row is its own. |
| Data.RowsOfWithout | src/data.rs:132-135 | After deleting one series' measurements, that series has none and every other series keeps its rows. |
| Data.RowsOfMembers | src/data.rs:58-63 | The rows selected for a series are exactly the table's rows of that series. |
| Data.RowsOfAbsent | src/data.rs:58-63 | A series with no rows in the table selects nothing. |
| Data.InsertPreservesWellFormed | src/data.rs:92-100 | Inserting into an existing series keeps the store invariant. The new row is appended with the next run. |
| Data.CreatePreservesWellFormed | src/data.rs:103-121 | Creating a series keeps the invariant, and the new id has no measurements yet. |
| Data.MeasurePreservesWellFormed | src/data.rs:79-101 | `measure` keeps the store invariant on every path. |
| Data.DeletePreservesWellFormed | src/data.rs:123-143 | `delete_series` keeps the store invariant. |
| Data.CreatedSeriesLookup | src/data.rs:103-121 | After creating a series under a new name, the name finds the new row. Under a name already in use, it still finds the older row. |
| Data.AppendKeepsOthers | src/data.rs:92-100 | An insert leaves the rows of every other series unchanged. |
| Data.MeasureExistingSeries | src/data.rs:79-101 | Measuring a known series appends one row to the series the name finds. The row is numbered one past the existing runs and carries `now` and the value. The series table is unchanged. |
| Data.MeasureAutoCreates | src/data.rs:79-101 | With `create`, an unknown name gets a new series with an empty unit and a fresh id, plus one measurement at run 1. Nothing else changes. |
| Data.AutoCreatedSeriesFound | src/data.rs:83-84 | The auto-created series is found by its name and holds exactly that one measurement. |
| Data.MeasureAppendsOnly | src/data.rs:79-101 | `measure` only appends. It stores one row exactly when `create` is set or the name is known. Otherwise it exits with code 1 and changes nothing. |
| Data.MeasureUnknownRejected | src/data.rs:85-88 | Without `create`, an unknown name exits with code 1 and stores nothing. |
| Data.MeasureStoresUnderName | src/data.rs:79-101 | With auto-creation, `measure` appends exactly one row. The row carries the value and `now`, and belongs to the series the name finds afterwards. |
| Data.MeasureOkStoresUnderName | src/data.rs:79-101 | Whenever `measure` succeeds, with or without auto-creation, it appends exactly one row. The row carries the value and `now`, and belongs to the series the name finds afterwards. |
| Data.LookupKeptByAppend | src/data.rs:164-184 | Appending series rows never changes the row a known name finds. |
| Data.Appended | src/data.rs:92-100 | One row is appended per measured value. |
| Data.AppendedAt | src/data.rs:92-100 | The i-th appended row carries run `count + i + 1`, clock reading `times[i]` and the i-th value. |
| Data.MeasureManyInserts | src/data.rs:79-101 | Repeated `measure` calls on a known name are repeated inserts into its series. |
| Data.InsertStep | src/data.rs:92-100 | One insert adds run n + 1 to a series numbered 1..n and keeps the numbering. |
| Data.InsertManyAppends | src/data.rs:92-100 | Repeated inserts add runs n + 1, n + 2, ... in call order. |
| Data.MeasureStep | src/data.rs:79-101 | A `measure` call on a known name keeps the invariant, the series table, and the series the name finds. |
| Data.MeasureManyKeepsSeries | src/data.rs:79-101 | Repeated `measure` calls keep the series table and the series the name finds. |
| Data.MeasureManyAppends | src/data.rs:92-100 | Repeated `measure` calls on a known series append runs after the existing ones, in call order, with the given values and clock readings. |
| Data.FreshSeriesFound | src/data.rs:79-101 | After measuring an unknown name with auto-creation, the name finds the new series through every later call. |
| Data.FreshSeriesRunsFromOne | src/data.rs:79-101 | The runs of an auto-created series count 1, 2, ..., one per `measure` call. |
| Data.DeleteRemovesSeries | src/data.rs:123-143 | `delete_series` exits with code 1, changing nothing, exactly when the name is unknown. Otherwise it removes the found series' row and all its measurements, reports how many measurements it deleted, and leaves other series alone. |
| Data.DeleteUniqueNameGone | src/data.rs:123-143 | When only one series has the name, deleting it makes the name unknown. |
| Data.QueryUnknownIsNone | src/data.rs:52-56 | `series` returns `None` exactly when no series has the name. |
| Data.TakeNewest | src/data.rs:62 | A prefix of a newest-first list is newest first and drawn from it. |
| Data.NewestPrefix | src/data.rs:58-74 | The first min(points, n) measurements in newest-first order are ordered and drawn from the stored ones. They are all of them when fewer than `points` exist. |
| Data.NewestPrefixCut | src/data.rs:58-74 | Nothing left out of `limit ?2` is newer than the last measurement kept. |
| Data.QueryFindsSeries | src/data.rs:52-77 | For a known name, `series` returns the found series with min(points, count) measurements. |
| Data.QueryReturnsNewest | src/data.rs:58-76 | The measurements `series` returns are newest first and are measurements of that series. They are all of them when fewer than `points` exist. |
| Data.QueryLeavesOutOlder | src/data.rs:58-76 | No measurement that `series` leaves out is newer than the oldest one it returns. |
| Data.DataSource.constructor | src/data.rs:26-50 | A new store has both tables empty and satisfies the invariant. |
| Data.DataSource.GetSeries | src/data.rs:164-184 | `get_series` is `None` exactly when no row has the name. Otherwise it is the first row with the name, with no measurements. |
| Data.DataSource.CreateSeries | src/data.rs:103-121 | `create_series` appends a row under a fresh id and returns it with no measurements. The invariant is kept. |
| Data.DataSource.Measure | src/data.rs:79-101 | `measure` performs exactly `MeasureEffect`, including the exit, and keeps the invariant. |
| Data.DataSource.DeleteSeries | src/data.rs:123-143 | `delete_series` performs exactly `DeleteEffect` and keeps the invariant. |
| Data.DataSource.ListSeries | src/data.rs:145-162 | `list_series` returns every series row in table order, with no measurements. |
| Data.DataSource.QuerySeries | src/data.rs:52-77 | `series(name, points)` pushes the queried rows one by one and returns exactly `Query`. |
| Menus.DownClamps | src/menu.rs:55-60 | Down moves one item down only when a further item exists, and otherwise stays. |
| Menus.UpClamps | src/menu.rs:61-66 | Up moves one item up unless at the first item, where it stays. |
| Menus.KeyClasses | src/menu.rs:53-77 | Exactly Enter confirms. Exactly `q`, Esc and Ctrl-C cancel. Every other key except Up and Down leaves the selection unchanged. |
| Menus.ReactKeepsBounds | src/menu.rs:55-66 | A key never moves a valid selection out of range. |
| Menus.RunKeepsBounds | src/menu.rs:53-80 | The selection stays in range through any sequence of keys. |
| Menus.RunEmptyStaysAtZero | src/menu.rs:53-80 | On an empty menu the selection stays 0. |
| Menus.RunStopsAtFirstEnding | src/menu.rs:67-75 | Keys after Enter or a cancel key are never read. |
| Menus.ChooseNeverPanics | src/menu.rs:82 | On a menu with items, `show` returns one of its items or exits with code 0, and never indexes out of bounds. |
| Menus.ChooseEmptyMenu | src/menu.rs:72-82 | On an empty menu, `show` can only exit with code 0 or panic on `items[selected]`. |
| Menus.DownPastLastExample | src/menu.rs:55-60 | Three Downs on three items stop at the last item. |
| Menus.UpAtFirstExample | src/menu.rs:61-66 | Up at the first item stays there. |
| Menus.FrameMarksSelected | src/menu.rs:89-108 | Item i is drawn at column 5 of line 4 + i with its own text. The `o` marker is on exactly the selected item, and exactly that item's text is bright. |
| Menus.MarkerCount | src/menu.rs:94-98 | Among the first n lines, the marked lines are the selected one if it is in range and none otherwise. So there are one or zero. |
| Menus.Menu.New | src/menu.rs:17-23 | A new menu has the note, no items and selection 0. |
| Menus.Menu.FromVec | src/menu.rs:25-35 | A menu from a list has its items in order and the first one selected. |
| Menus.Menu.AddItem | src/menu.rs:37-39 | `add_item` appends one item and changes nothing else. |
| Menus.Menu.Show | src/menu.rs:41-83 | `show` leaves the selection where `Run` ends and returns what `Choose` says. The items are untouched. |
| Menus.Menu.Redraw | src/menu.rs:85-112 | `redraw` writes exactly `Frame`, one line per item. |
| Lib.FindEq | src/lib.rs:177-183 | `find('=')` fails exactly when there is no `=`. Otherwise it returns the position of the first `=`. |
| Lib.LeadingEq | src/lib.rs:186 | The count of leading `=` signs: every character before it is `=`, and the character at it is not. |
| Lib.SplitLineCases | src/lib.rs:175-185 | A line is skipped exactly when it is empty. It draws a warning exactly when it is non-empty and has no `=`. It is an entry exactly when it has an `=`. |
| Lib.SplitLineEntry | src/lib.rs:185-186 | An entry's name has no `=`, and its value text does not start with `=`. The line is the name, one or more `=`, and the value text. |
| Lib.SplitJoin | src/lib.rs:177-186 | A name without `=`, followed by one or more `=` and a value not starting with `=`, splits back into that name and that value. |
| Lib.FindEqJoin | src/lib.rs:177 | `find('=')` on a name without `=` followed by `=` finds the position right after the name. |
| Lib.TrimEquals | src/lib.rs:186 | `trim_start_matches('=')` removes exactly a leading run of `=`. |
| Lib.LeadingEquals | src/lib.rs:186 | A run of n `=` before text not starting with `=` counts n. |
| Lib.SplitExample | src/lib.rs:185-186 | `a==5` splits into series `a` and value text `5`. |
| Lib.Entries | src/lib.rs:175-185 | The number of entry lines is at most the number of lines. What it counts is used by `BulkStoresEveryEntry` and `BulkStoresEntriesInOrder`. |
| Lib.Malformed | src/lib.rs:177-183 | There are at most as many warned lines as lines. That these are exactly the warnings is `BulkWarnsMalformed`. |
| Lib.BulkKeepsEarlierRows | src/lib.rs:171-203 | A bulk run only appends to both tables, even when it stops early. |
| Lib.BulkPreservesWellFormed | src/lib.rs:171-203 | A bulk run keeps the store invariant. |
| Lib.BulkWarnsMalformed | src/lib.rs:175-183 | A batch that runs to the end warns about exactly the non-empty lines without `=`, in input order. |
| Lib.BulkStoresEveryEntry | src/lib.rs:171-203 | With auto-creation and every value parsing, the batch stores exactly one measurement per entry line and ends normally. |
| Lib.BulkStoresEntriesInOrder | src/lib.rs:171-203 | With auto-creation and every value parsing, the batch makes one `measure` call per entry line, in input order. The k-th new row carries the k-th entry's parsed value and clock reading, and belongs to the series its name finds afterwards. |
| Lib.StoresInOrderCons | src/lib.rs:171-203 | A stored call followed by calls stored in order after it, in a store that only grew, is stored in order. |
| Lib.BulkStopsAtBadValue | src/lib.rs:186-192 | A value that does not parse ends the batch with exit code 1. The store is left exactly as the lines before the bad one made it, and the lines after it are never read. |
| Lib.BulkOkStoresCallsInOrder | src/lib.rs:171-203 | With or without auto-creation, a batch that ends normally reports one stored measurement per `measure` call its entry lines make. The k-th new row carries the k-th call's parsed value and clock reading, and belongs to the series its name finds afterwards. |
| Lib.MeasuredThenStored | src/lib.rs:196-202 | A successful `measure` call in front of calls stored in order is stored in order too. |
| Lib.StepBlank | src/lib.rs:175 | An empty line leaves the rest of the batch to the lines after it. |
| Lib.StepWarn | src/lib.rs:177-183 | A line without `=` adds one warning and leaves the rest of the batch to the lines after it. |
| Lib.StepBadValue | src/lib.rs:186-192 | An unparsable value ends the batch with code 1 and the warnings given so far. |
| Lib.StepMeasured | src/lib.rs:196-202 | A parsed value goes through `measure`. Its exit ends the batch with code 1, and otherwise the batch goes on with one more stored. |
| Lib.BehindNothing | src/lib.rs:171-172 | Nothing before the remaining lines changes nothing. |
| Lib.BehindBehind | src/lib.rs:171-172 | Warnings and counts of consecutive stretches of lines add up. |
| Lib.AddEntry | src/lib.rs:185-202 | An entry whose value does not parse stores nothing and stops the batch. Otherwise it performs `MeasureEffect`, and the batch goes on exactly when that succeeds. |
| Lib.AddBulk | src/lib.rs:167-204 | The `add-bulk` loop computes exactly `BulkEffect` (store, warnings and ending) and keeps the invariant. |
| Lib.TableLabelsCountDown | src/lib.rs:137-152 | The `#` labels count down from the number of rows to 1, each row keeping its timestamp and value. They depend only on the row count, not on stored runs. |
| Lib.BuildTable | src/lib.rs:141-152 | The table built row by row is `TableRows`. |
| Lib.PlotPointsShape | src/lib.rs:121-130 | There is one point per measurement, behind the origin. The points run oldest first, ending with the newest. The oldest shares x = 0 with the origin, and every x lies below the chart width `len + 1`. |

## Left out

- SQLite failures: every `?` on a statement, and every `unwrap` on a row or
  key read, can fail in the program. The model has no such failures.
- The database file, its path and the `create table` statements are not
  modelled. `DataSource::new` is modelled only as a store whose tables start
  empty.
- Terminal handling is not modelled: raw mode, the alternate screen, cursor
  movement, colours, `cleanup` and flushing. `Redraw` keeps only where each
  item goes and whether it is marked. The note line is not modelled.
- Key reads are given as a sequence, so a read error (`c.unwrap()`) is not
  modelled.
- Parsing `f64` (`str::parse`) is the parameter `parse`. The value is kept as
  its 64-bit pattern.
- A NaN value is not modelled as SQLite stores it. `parse::<f64>` accepts
  `NaN`, SQLite binds a NaN double as NULL, and `series` then fails reading
  that row as an `f64` (src/data.rs:70). The model stores and returns the
  NaN bit pattern like any other value.
- The `f32` casts in the plot points are not modelled. Drawing the chart
  (`textplots`) and printing the table (`prettytable`, `chrono` formatting)
  are output only.
- Integer widths are left as unbounded integers: the `i32`/`u32` ids and the
  `series_id as u32` cast.
- Data.DataSource.QuerySeries: `points` is a `nat` rather than a `u8`.
- Menus.FrameMarksSelected: line numbers (`4u16 + i as u16`) do not wrap at 65536.
- The order of measurements with equal timestamps is left open by
  `order by timestamp desc`. `NewestFirst` fixes one order (the later row
  first). The lemmas state only what every order satisfies, except
  `Query`'s exact contents.
- `warn!` is the returned list of warned lines; its text is not modelled.
  The `do_error` messages logged before an exit are not modelled.
- The `measure` `Err` path in `add-bulk` is not modelled. It is only reached
  through an SQLite failure, which the model does not have.
- Reading standard input and splitting it into lines (`lines()`) is not
  modelled: the lines are given. Byte offsets of UTF-8 text are modelled as
  character positions.
- The `plot` command's series menu (no series given), its "Series not found"
  message and the other commands in `src/lib.rs` are not modelled. Only the
  store operations they call are.
- `src/cli.rs` and `src/cmd/series.rs` are not part of this model.
