# LocationDatabase, modelled in Dafny

`LocationDatabase` (in `loc_db.py`) is a small helper around an SQLite file
that holds postal-code reference data. It has one table, `location`, and one
index, `idx_postalcode_countrycode`, on `postal_code`. The helper opens and
closes the connection. It detects first use by checking whether the table
exists. It loads one country's batch of rows, and by default first deletes
that country's earlier rows. It builds the index on the first load. It counts
rows per country and looks up one row by exact `(country_code, postal_code)`.

The model has three modules:

- `Wrappers` (`wrappers.dfy`): `Option` and `Result`.
- `LocationTable` (`location_table.dfy`): the content of the database file as
  a value `Store(tableExists, indexExists, rows)`. `rows` is in insertion
  order. The file also holds each SQL statement as a function on that value:
  `Without` is the `DELETE ... WHERE country_code = ?`, `RowsOf` and
  `CountMap` are the `GROUP BY`, and `FirstMatch` is the `SELECT ... WHERE`.
  `AfterAddCountryData` is what one `add_country_data` call does to the file.
  The properties of the load procedure are lemmas about these functions.
- `LocDb` (`loc_db.dfy`): the class `LocationDatabase`. Its fields are the
  connection and the file content. Each statement of `add_country_data`
  (the conditional delete, the `to_sql` append, the conditional index
  creation) is a method that changes those fields. `AddCountryData` runs them
  in the source's order, and its postcondition ties the new content to
  `AfterAddCountryData` of the old content.

Decisions:

- The connection is `NoConnection` (the `None` that `__init__` sets), then
  `Open(filename)`, then `Closed(filename)`. Every table operation requires
  an open connection. Closing needs a connection object. Closing one that is
  already closed changes nothing.
- Opening a file is I/O, so `Connect` takes what the file already holds as a
  parameter, `onDisk`. For a new file or `:memory:` it is `EmptyStore`.
- `Store.Valid()` holds for every file the helper can produce: the index
  exists only with the table, and a missing table holds no rows.
- A `SELECT` on a missing `location` table makes SQLite raise "no such
  table". So `find_lat_lon` and `show_country_counts` on a fresh file fail,
  and the model returns `Err(NoSuchTable)` for them. A lookup of a pair that
  was never loaded returns `None` only once the table exists.
- When several rows match a lookup, the query has no `ORDER BY`, so the
  source promises only "some matching row". The model fixes the choice to
  the first matching row in insertion order.
- `show_country_counts` prints the grouped rows. The model returns them as a
  map from country code to count, built by a loop over the rows.
- The `to_sql` append creates the table even when the batch is empty. So the
  table exists after every load.

## Model

| member | source | states |
|---|---|---|
| `LocDb.LocationDatabase.constructor` | loc_db.py:18-19 | a new helper has no connection |
| `LocDb.LocationDatabase.Connect` | loc_db.py:21-33 | afterwards the connection is open on `filename`, and the content is what the file held |
| `LocDb.LocationDatabase.Close` | loc_db.py:35-37 | the connection is closed; the file content is unchanged |
| `LocDb.LocationDatabase.LocTableExists` | loc_db.py:39-56 | when the table is absent there are no rows and no index; rows or an index imply the table is present |
| `LocDb.LocationDatabase.CheckFirstTime` | loc_db.py:58-69 | first use is exactly "the table does not exist"; on first use there are no rows and no index; as a function it changes no state |
| `LocDb.LocationDatabase.DeleteCountryRows` | loc_db.py:95-97 | runs only on an existing table; leaves exactly the rows of other countries, in order; keeps the file consistent |
| `LocDb.LocationDatabase.AppendRows` | loc_db.py:99 | the table exists afterwards, the rows are the old rows followed by the batch, and the file is consistent |
| `LocDb.LocationDatabase.CreatePostalCodeIndex` | loc_db.py:101-107 | runs only on an existing table, always leaves the index in place, and keeps the file consistent |
| `LocDb.LocationDatabase.AddCountryData` | loc_db.py:71-107 | erasing is the default, as in the source; the statements, in the source's order, never hit a missing table; the connection is kept; the file stays consistent; the new content is `AfterAddCountryData` of the old |
| `LocDb.LocationDatabase.ShowCountryCounts` | loc_db.py:109-125 | fails exactly when the table is absent; otherwise has one key per country present, with that country's row count (at least one), and no other keys |
| `LocDb.LocationDatabase.FindLatLon` | loc_db.py:127-163 | fails exactly when the table is absent; otherwise `None` exactly when no row matches both fields exactly; otherwise the five-column projection of the first matching row |
| `LocDb.MixedBatchCounts` | loc_db.py:116-122 | one "AA" row and two "AB" rows count as {"AA": 1, "AB": 2} |
| `LocDb.MixedBatchLookup` | loc_db.py:152-161 | in that batch, the lookup of ("AB", "AB100") finds the "AB" row with that postal code |
| `LocationTable.AfterAddCountryData` | loc_db.py:91-107 | reference definition of one load's effect on the file; its contract says the table exists afterwards and the batch is the last part of the rows; `OtherCountriesUntouched`, `EraseReplacesFilteredPart`, `EraseReloadsCountry`, `NoEraseAppends` and `IndexOnlyOnFirstUse` state the rest |
| `LocationTable.CountMap` | loc_db.py:116-120 | reference definition of the `GROUP BY` count; `CountMapCounts` states its keys and values, and `CountMapSnoc` how one more row changes it |
| `LocationTable.Matches` | loc_db.py:155-156 | reference definition of the lookup condition: both key columns equal the queried values exactly; `FirstMatch` and `FindLatLon` state what a lookup returns in terms of it |
| `LocationTable.Project` | loc_db.py:153 | the five selected columns; the projection keeps the key columns, so it matches the key of the row it came from |
| `LocationTable.RowsOf` | loc_db.py:116-120 | a country's group holds exactly the rows carrying that code |
| `LocationTable.Without` | loc_db.py:96-97 | the delete keeps exactly the rows whose country code differs |
| `LocationTable.FirstMatch` | loc_db.py:152-161 | no position exactly when no row matches; otherwise a matching position with no match before it |
| `LocationTable.RowsOfWithout` | loc_db.py:95-97 | deleting one country leaves no rows of it and every other country's rows as they were, in order |
| `LocationTable.CountMapCounts` | loc_db.py:116-125 | a code is a key of the counts exactly when some row carries it; its count is the number of those rows |
| `LocationTable.AddCountryDataValid` | loc_db.py:91-107 | a load keeps the file consistent and always leaves the table in place |
| `LocationTable.OtherCountriesUntouched` | loc_db.py:95-99 | for every other country, its rows afterwards are its old rows, in order, followed by its rows in the batch |
| `LocationTable.EraseReplacesFilteredPart` | loc_db.py:95-99 | with erase on an existing table, the new rows are the old rows of other countries, in order, then the batch; a row is present exactly when it is an old row of another country or a batch row |
| `LocationTable.EraseReloadsCountry` | loc_db.py:91-99 | with erase, the country's rows afterwards are exactly its rows in the batch, also on first use |
| `LocationTable.NoEraseAppends` | loc_db.py:95-99 | without erase, or on first use, nothing is deleted: the new rows are the old rows followed by the batch, so old and new rows of every country coexist |
| `LocationTable.FirstLoad` | loc_db.py:91-107 | on a new file the first load leaves exactly its batch, with the table and the index created |
| `LocationTable.IndexOnlyOnFirstUse` | loc_db.py:101-107 | the index exists afterwards exactly when it existed before or this was first use; later loads leave it as it was |
| `LocationTable.ReplayKeepsIndex` | loc_db.py:101-107 | once the table exists, any number of further loads keep it and leave the index as it was |
| `LocationTable.IndexBuiltOnce` | loc_db.py:91-107 | from a new file, after any sequence of loads, the table and the index exist exactly when at least one load has happened |
| `LocationTable.ReloadTwice` | loc_db.py:95-99 | two erasing loads of one country leave only the second batch's rows of it; other countries keep their old rows plus those of both batches |
| `LocationTable.ReloadLookupSeesOnlyBatch` | loc_db.py:95-161 | after an erasing load, a lookup for that country finds nothing exactly when no batch row matches, and what it finds is a batch row |
| `LocationTable.NeverLoadedIsAbsent` | loc_db.py:95-161 | a pair that matches no row of the file and no row of any batch loaded since is not found, whatever the loads and their erase flags |
| `LocationTable.CountAfterFreshLoad` | loc_db.py:95-120 | loading a non-empty batch for a country with no rows yet, all of that country, makes its count the batch size |

## Left out

- sqlite3 and pandas internals are not modelled: file creation, `row_factory`, column type affinity, and the extra `"index"` column that `to_sql` writes. Schema inference from DataFrame dtypes is also left out, and so is the error raised when a batch's columns do not fit an existing table. All of these live in libraries that are not part of this model.
- Failing to open the file is not modelled. Opening a file is I/O; `Connect` always succeeds and takes the file's content as a parameter.
- Calling `connect` again while a connection is open leaves the old connection open in the source. The model simply replaces the connection.
- Transactions and commits are not modelled. `add_country_data` never commits itself, and atomicity is SQLite's concern. Each call is one atomic step of the model.
- Logging (module-level configuration and debug messages) is not modelled, and neither is the `print` output of `show_country_counts`. The counts are returned as a map instead.
- Latitude and longitude are Dafny `real`s that are only stored and compared. No floating-point arithmetic happens in the source. The descriptive columns are opaque optional strings.
- An operation on a closed or never-opened connection raises in the source. The model makes an open connection a precondition instead of modelling that error.
- `LocDb.LocationDatabase.FindLatLon`: SQLite promises only some matching row when several rows match. The model always returns the first in insertion order, which is one of the allowed answers.
- The test module is not modelled. Its fixture does not match the constructor, and several of its tests are placeholders. Only its table-existence checks informed `LocTableExists` and `CheckFirstTime`.
