# A verified model of the Folketinget mirror's core

The mirror copies the entity types of the Danish Parliament's open data
service into a local SQLite database and keeps them current. For each
entity type of the generated catalog it reads the largest stored update
timestamp (`opdateringsdato`, the watermark), asks the remote for the
records updated strictly after it, in ascending update order, and inserts
every record of the page with a parameterised `INSERT` built from the
catalog's column list. It repeats this until a page comes back empty. One
synchronisation cycle does this for every entity type except
`Sambehandlinger`, which the remote does not serve. Separately, a metric
table maps each entity type to the number of distinct ids stored for it. It
is refreshed once per minute and rendered as
`items_cached_total{resource_type="X"} N` lines.

This project models that core in Dafny and proves properties of it:

- `wrappers.dfy`: `Option` and `Result`.
- `text.dfy`: decimal text and its parsers, including Rust's `u32`
  parse; `", "`-joined lists and their splitter; first-occurrence search.
- `row_writer.dfy`: catalog lookup, `serialize`, the insert statement
  and a reader for it, the binding loop of `insert` over an array of
  parameter slots, and a `Database` class whose `Insert` method appends
  one row to a table unless a stored row already holds its primary key.
- `scraper.dfy`: the watermark, `get_next`, and `mirror_next`. The
  function `MirrorSpec` specifies the method `MirrorNext` and its insert
  loop `WritePage`. Also the drain loop (`DrainSpec` / `Drain`), one
  synchronisation cycle (`CycleSpec` / `Cycle`), and the completeness of a
  drain.
- `metrics.dfy`: the metric table as a class with a collection pass and a
  renderer, the pause rule between passes, and a reader for the
  exposition text.

Modelling choices:

- Timestamps are naturals.
- A remote endpoint is a `Remote` value: the records in server order, the
  server's own page-size limit (the request sends no `$top`) and whether
  the inline count comes back.
- The database is a map from table name to its sequence of rows.
- Each catalog entity lists the positions of its primary-key columns.
  Executing an insert fails when a stored row already holds the new row's
  values at those positions. There is no upsert.
- Each panic the model can see becomes an error value that ends the
  operation. These are an unknown entity type, an entity type without
  columns (its statement is a syntax error), a missing table, a
  404, a missing or non-scalar field, a primary-key conflict when the
  statement executes, a count that is not a `u32`, and a division by zero
  in the progress line. Failures of the connection pool and of the
  transport are not modelled.

The code binds `Null` as the text `"NULL"`, panics on a failed fetch
instead of retrying it, and has no rate limiter, shutdown flag or
concurrent worker. The model binds `Null` the same way, ends the drain at
a failed fetch and has none of those parts. The 5 second sleep that ends
each cycle is left out.

## Model

| member | source | states |
|---|---|---|
| RowWriter.FindEntityMeaning | src/scraper.rs:16-22 | The lookup fails exactly when no catalog entity has the name. Otherwise it returns the first entity with that name. |
| RowWriter.FoundEntityIsValid | src/scraper.rs:16-22 | Every entity found in the generated catalog has a delimiter-free name, distinct delimiter-free column names, and key positions among its columns. |
| RowWriter.Placeholders | src/scraper.rs:33-37 | One placeholder per column, in column order; the i-th is `:` followed by the i-th column name. |
| RowWriter.InsertStatementRoundTrip | src/scraper.rs:24-40 | Reading the statement back gives the table, the columns in catalog order, and one `:column` placeholder per column. |
| RowWriter.ParseInsertShape | src/scraper.rs:39 | The `INSERT INTO T(...) VALUES(...)` frame reads back into its table, column text and value text. |
| RowWriter.Serialize | src/scraper.rs:42-51 | Null gives `"NULL"`; a bool gives `"true"`/`"false"`; a number gives its canonical decimal text, with no leading zero and no "-0", which parses back to the number; a string is bound verbatim. Arrays and objects are excluded. |
| Text.IntDecimalRoundTrip | src/scraper.rs:46 | The decimal text of an integer parses back to that integer. |
| Text.CanonicalDecimalUnique | src/scraper.rs:46 | Any canonical decimal text is the `IntToDecimal` text of the integer it reads as, so the bound text of a number is fixed exactly. |
| RowWriter.ParameterIndex | src/scraper.rs:65 | The lookup fails exactly when no parameter has the name. Otherwise it gives a 1-based position holding that name. |
| RowWriter.ColumnParameterIndex | src/scraper.rs:65 | With distinct columns, the placeholder of the i-th column is found at position i + 1. |
| RowWriter.ParameterOfColumn | src/scraper.rs:65 | `parameter_index(":" + column).unwrap()` gives i + 1 for the i-th column. |
| RowWriter.BoundValuesMeaning | src/scraper.rs:63-67 | Binding succeeds exactly when every catalog column has a scalar value. It then binds one serialised value per column, in catalog order. Otherwise it names the first column that is missing or not scalar. |
| RowWriter.BindParameters | src/scraper.rs:61-67 | The binding loop over the statement's parameter slots yields the bound values column by column, or the error of the first column that cannot be bound. |
| RowWriter.InsertOutcomeMeaning | src/scraper.rs:53-69 | The insert fails with an unknown entity exactly when the catalog has no such type. It fails with a syntax error exactly when the type is known but has no columns. It fails with a missing table exactly when the type has columns but its table does not exist. A record that cannot be bound fails with the binding error. The insert succeeds exactly when the type has columns, its table exists, every column binds and no stored row has the same primary key. On success the row carries the record's timestamp and one serialised value per catalog column. A key conflict means some stored row holds the same key. |
| RowWriter.EmptyEntityFails | src/scraper.rs:39-61 | An entity type without columns generates `INSERT INTO T() VALUES()`, and its insert fails as a failed prepare does. |
| RowWriter.Database.Insert | src/scraper.rs:53-69 | An unknown entity type, an entity type without columns, a missing table, a record that cannot be bound, or a row whose primary key is already stored leaves every table unchanged and returns the error. Otherwise exactly one row is appended to the record's table and 1 is returned. |
| Scraper.MaxStampBounds | src/scraper.rs:113 | `MAX(opdateringsdato)` bounds every stored timestamp and is attained by a row. |
| Scraper.WatermarkMeaning | src/scraper.rs:108-127 | The watermark is absent exactly when the table is empty or the stored text does not parse. Otherwise it is the largest stored timestamp. |
| Scraper.AboveMembers | src/scraper.rs:92-96 | The `gt` filter keeps exactly the records updated strictly after the bound. |
| Scraper.GetNextMeaning | src/scraper.rs:78-101 | An unknown entity type is the only fetch error. With no start, the bound is epoch zero. The page is the first up-to-page-size records of the filter, each newer than the bound. It is empty exactly when nothing is newer or the page size is 0. |
| Text.ParseU32Decimal | src/scraper.rs:139 | The count text parses as `u32` exactly when the number is below 2^32, and then gives the number back. |
| Scraper.ProgressPercentMeaning | src/scraper.rs:153 | The percentage is undefined exactly when the remote count and the stored count are both 0. Otherwise it lies in [0, 100]: 100 when nothing remains, 0 when nothing was stored. |
| Scraper.PageRowsMeaning | src/scraper.rs:135-137 | Inserting a page writes rows in page order. Each row is what its insert yields against the table as it stands after the rows before it, and carries the record's timestamp. It stops at the first failing record and keeps that record's error. |
| Scraper.PageRowsComplete | src/scraper.rs:135-137 | When the entity type has columns, every record binds, and no two bound rows, nor a bound row and a stored row, share a primary key, the whole page is written: one row per record, the row the record binds to. |
| Scraper.WritePage | src/scraper.rs:135-137 | The insert loop appends exactly the page's rows up to the first failure to the entity's table, and reports that failure. |
| Scraper.MirrorNext | src/scraper.rs:103-157 | `mirror_next` equals `MirrorSpec`: the watermark query, the request, the inserts, the count parse and the percentage, each failing at the step where the code panics. |
| Scraper.MirrorFrame | src/scraper.rs:103-157 | A round, even a failing one, changes only its own table, and only by appending. |
| Scraper.MirrorAppendsPage | src/scraper.rs:133-137 | A successful round grows the table by exactly the page's length. The i-th new row is what inserting the i-th page record yields against the table as it then stood. |
| Scraper.MirrorFetchesNewer | src/scraper.rs:133 | When the stored maximum reads back, every fetched record is strictly newer than every stored row. |
| Scraper.WatermarkNeverDecreases | src/scraper.rs:108-137 | Appending rows never lowers the watermark. |
| Scraper.MirrorProgress | src/scraper.rs:170-174 | A round that returns a non-empty page strictly lowers the number of remote records above the watermark. This is the drain's termination measure. |
| Scraper.Drain | src/scraper.rs:170-174 | The loop calls `mirror_next` until the first empty page or error. It equals `DrainSpec`, which counts one request per page plus the final empty one. |
| Scraper.DrainFrame | src/scraper.rs:170-174 | A drain changes only its own table, and only by appending; no table is created or dropped. |
| Scraper.DrainReadsOwnRemote | src/scraper.rs:170-174 | A drain depends only on the remote endpoint of its own entity type. |
| Scraper.DrainMirrorsAll | src/scraper.rs:170-174 | Suppose timestamps strictly increase, the count reads back, the entity type has columns, every record above the stored watermark binds, and none of them repeats a primary key or has one already stored. Then a drain succeeds. It appends the rows of exactly those records, in remote order, using one request per page plus the final empty one. |
| Scraper.DrainFresh | src/scraper.rs:170-174 | From an empty table, when the entity type has columns and the remote's records bind and have distinct keys, a drain stores every remote record, in order, and the watermark ends at the last record. |
| Scraper.DrainScenario | src/scraper.rs:170-174 | 237 records at 100 per page are mirrored into an empty table with 4 requests, giving 237 rows. |
| Scraper.TiedStampIsSkipped | src/scraper.rs:83-96 | Two records with the same timestamp on different pages: the second round asks for records newer than that timestamp, so the second record is never stored. |
| Scraper.UpdatedRecordConflicts | src/scraper.rs:135-137 | A record updated after it was stored comes back with a newer timestamp and its old key. Its insert fails on the primary key, so the round and the drain fail and the table is unchanged. |
| Scraper.CycleStep | src/scraper.rs:170-174 | One iteration of the loop drains the i-th entity type. It either ends the cycle with that drain's error or adds that drain's requests and moves on to the next entity type. |
| Scraper.Cycle | src/scraper.rs:162-176 | One cycle drains every catalog entity type in catalog order, skips `Sambehandlinger`, and stops at the first error. It equals `CycleSpec`. |
| Scraper.CycleNeverFetchesExcluded | src/scraper.rs:163-168 | A cycle behaves the same whatever the remote serves for `Sambehandlinger`. |
| Scraper.CycleFrame | src/scraper.rs:163-175 | A cycle only appends rows. It leaves the `Sambehandlinger` table, and every table no entity type of the cycle names, unchanged. |
| Metrics.AfterPassMeaning | src/metrics.rs:33-42 | After a pass, every visited name whose count query succeeded maps to its count, whether the key is new or not. Every other key keeps its value, and no other key appears. |
| Metrics.AfterPassIdempotent | src/metrics.rs:33-42 | A second pass with the same query answers changes nothing. |
| Metrics.AfterPassNames | src/metrics.rs:33-42 | A pass over catalog names adds only catalog names as keys. |
| Metrics.MetricsTable.CollectionPass | src/metrics.rs:33-42 | The loop over the catalog leaves the table equal to `AfterPass` of the old table. |
| Metrics.NextPauseMeaning | src/metrics.rs:44-53 | A pass sleeps exactly when it took less than the 60 second period, and then for a positive time, so the next pass starts one period after this one started. An overrunning pass restarts at once. An elapsed time that is negative is an error. |
| Metrics.MetricsTable.Render | src/metrics.rs:69-77 | The response body is the exposition of the table's entries in the map's iteration order. |
| Metrics.ExpositionRoundTrip | src/metrics.rs:70-76 | The exposition reads back as one (name, count) entry per listed name, in order. |
| Metrics.EntriesMeaning | src/metrics.rs:70 | The entries of an iteration of the table are each entry exactly once, with its count. |
| Metrics.ExpositionMeaning | src/metrics.rs:69-77 | The body holds exactly one `items_cached_total{resource_type="X"} N` line per table entry, with that entry's count, and nothing else. |

## Left out

- SQLite itself is not modelled. A table is the sequence of its inserted rows, and `MAX(opdateringsdato)` is the largest row timestamp. The statement is built and read back but no SQL engine executes it. Preparing it fails on an empty column list, the one syntax error the generated text can have, and on a missing table. Executing it is the primary-key check of `InsertOutcome`, comparing the bound texts; SQLite's type affinity and any other schema constraint are not modelled. The schema does not appear in the source; each entity's key positions are part of the catalog value.
- The HTTP and OData transport is not modelled. A fetch is a function of the remote value. The `datetime'…T…'` filter literal and chrono's parsing of the stored timestamp are not modelled; a parse failure is the input `parses`.
- Scraper.Drain: always reads the watermark as parsing. If a stored timestamp never parsed, every round would ask for the first page again. With a primary key, such a round re-inserts a record that is already stored and fails. From an empty table this happens in the second round; with stored rows it happens in the first. Without one, the loop would never end, and no termination measure exists for it.
- Scraper.Cycle: models one pass of the endless outer loop of `synchronize`, up to its 5 second sleep. The sleep and the repetition are left out.
- Scraper.ProgressPercent: computes on unbounded naturals. In the code `remaining * 100` is a `u32` and overflows once the remote count exceeds 42 949 672; that overflow is not modelled.
- The percentage is only evaluated when info logging is enabled, so `MirrorSpec` takes `logged` as an input. The other log lines are not modelled, including the debug line at src/scraper.rs:142-146, which passes its two arguments in swapped order.
- RowWriter.Serialize: JSON numbers are integers. Floating-point numbers are not modelled.
- Metrics.MetricsTable.CollectionPass: `count_resources` (src/metrics.rs:13-25) is the input function `countOf`, and its SQL is not modelled. The endless loop of `update_metrics` and the sleep itself are left out; `NextPause` is the decision taken after each pass. The clock is the input `elapsed`.
- Metrics.MetricsTable.Render: the `HashMap` iteration order is the input `order`, which lists every key once. The warp route, its header and its status code are not modelled.
- Concurrency is not modelled: the `RwLock` that `update_metrics` and the metrics route share (src/metrics.rs:27-77). src/main.rs starts only `synchronize`; where `update_metrics` is started is not part of this model.
- `pool.get().unwrap()` (src/scraper.rs:108-110 and 136) and a transport failure of `get_next(...).unwrap()` (src/scraper.rs:133) are not modelled: the connection pool and the network are outside the model, and a fetch fails only with a 404.
- src/api/, src/backup.rs, src/config.rs and src/main.rs are not part of this model.
