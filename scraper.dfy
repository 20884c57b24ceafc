/**
 * The mirror engine of scraper.rs: for one entity type it reads the largest
 * stored update timestamp (the watermark), asks the remote for the records
 * updated strictly after it, in ascending update order, inserts every
 * record of the page, and repeats until a page comes back empty; one cycle
 * does this for every catalog entity type except Sambehandlinger.
 *
 * Timestamps are naturals. The remote list endpoint of an entity type is a
 * sequence of records in the order the server sorts them, a page size and
 * whether the server sends the inline count of all matching records.
 */
module Scraper {
  import opened Wrappers
  import opened Text
  import opened RowWriter

  /** `NaiveDateTime::from_timestamp(0, 0)`: the lower bound when no watermark is read. */
  const EpochZero: nat := 0

  /** The entity type the remote does not serve; every cycle skips it. */
  const Excluded := "Sambehandlinger"

  /** One answer of the remote: its records and the optional count text. */
  datatype Page = Page(value: seq<Record>, count: Option<string>)

  /**
   * The remote list endpoint of one entity type: its records in server
   * order, the server's own page-size limit (the request sends no `$top`),
   * and whether the server returns the inline count the request asks for.
   */
  datatype Remote = Remote(records: seq<Record>, pageSize: nat, inlineCount: bool)

  /** The remote has no endpoint for the entity type (a 404). */
  datatype FetchError = NotFound

  /** Why `mirror_next` panics; every one of these ends the synchronisation. */
  datatype MirrorError =
    | StoreQueryFailed                  // the watermark query fails: no such table
    | FetchFailed(fetch: FetchError)    // get_next(...).unwrap()
    | InsertFailed(insert: InsertError) // insert(...).unwrap()
    | BadCount                          // the count text is not a u32
    | ProgressUndefined                 // the progress percentage divides by zero

  // ---------------------------------------------------------------------
  // The cursor

  /** The largest update timestamp of a non-empty table. */
  function MaxStamp(rows: seq<Row>): nat
    requires rows != []
  {
    if |rows| == 1 then rows[0].stamp
    else
      var rest := MaxStamp(rows[1..]);
      if rows[0].stamp >= rest then rows[0].stamp else rest
  }

  /** MAX is an upper bound of the column and is attained by a row. */
  lemma {:induction false} MaxStampBounds(rows: seq<Row>)
    requires rows != []
    ensures forall i :: 0 <= i < |rows| ==> rows[i].stamp <= MaxStamp(rows)
    ensures exists i :: 0 <= i < |rows| && rows[i].stamp == MaxStamp(rows)
  {
    if |rows| > 1 {
      MaxStampBounds(rows[1..]);
      var rest := MaxStamp(rows[1..]);
      var k :| 0 <= k < |rows[1..]| && rows[1..][k].stamp == rest;
      assert rows[k + 1] == rows[1..][k];
      forall i | 1 <= i < |rows| ensures rows[i].stamp <= rest {
        assert rows[i] == rows[1..][i - 1];
      }
      if rows[0].stamp < rest {
        assert rows[k + 1].stamp == MaxStamp(rows);
      } else {
        assert rows[0].stamp == MaxStamp(rows);
      }
    } else {
      assert rows[0].stamp == MaxStamp(rows);
    }
  }

  /**
   * `SELECT MAX(opdateringsdato)` read back as a timestamp: absent for an
   * empty table, and absent when the stored text does not parse.
   */
  function Watermark(rows: seq<Row>, parses: bool): Option<nat> {
    if rows == [] || !parses then None else Some(MaxStamp(rows))
  }

  /** The watermark is the largest stored timestamp, when there is one that reads back. */
  lemma WatermarkMeaning(rows: seq<Row>, parses: bool)
    ensures var w := Watermark(rows, parses);
            && (w.None? <==> rows == [] || !parses)
            && (w.Some? ==> (forall i :: 0 <= i < |rows| ==> rows[i].stamp <= w.value)
                            && exists i :: 0 <= i < |rows| && rows[i].stamp == w.value)
  {
    if rows != [] {
      MaxStampBounds(rows);
    }
  }

  /** `start.unwrap_or(from_timestamp(0, 0))`: the exclusive lower bound of the request. */
  function LowerBound(start: Option<nat>): nat {
    if start.Some? then start.value else EpochZero
  }

  // ---------------------------------------------------------------------
  // The request

  /** The records of the filter `opdateringsdato gt bound`, in the remote's order. */
  function Above(records: seq<Record>, bound: nat): (r: seq<Record>)
    ensures |r| <= |records|
  {
    if records == [] then []
    else (if records[0].stamp > bound then [records[0]] else []) + Above(records[1..], bound)
  }

  /** The filter keeps exactly the records updated strictly after the bound. */
  lemma {:induction false} AboveMembers(records: seq<Record>, bound: nat)
    ensures forall x :: x in Above(records, bound) <==> x in records && x.stamp > bound
  {
    if records != [] {
      AboveMembers(records[1..], bound);
      assert records == [records[0]] + records[1..];
    }
  }

  function Min(a: nat, b: nat): nat {
    if a < b then a else b
  }

  /**
   * `get_next`: one request ordered on `opdateringsdato`, filtered on
   * `opdateringsdato` strictly after the start (epoch zero when there is
   * none), with the inline count of all matching records.
   */
  function GetNext(remotes: map<string, Remote>, resource: string, start: Option<nat>): Result<Page, FetchError> {
    if resource !in remotes then Err(NotFound)
    else
      var remote := remotes[resource];
      var matching := Above(remote.records, LowerBound(start));
      Ok(Page(matching[..Min(remote.pageSize, |matching|)],
              if remote.inlineCount then Some(NatToDecimal(|matching|)) else None))
  }

  /**
   * An unknown entity type is the only fetch error; a page holds the first
   * matching records (up to the page size) and only records newer than the
   * start, and it is empty exactly when nothing is newer or the page size is 0.
   */
  lemma GetNextMeaning(remotes: map<string, Remote>, resource: string, start: Option<nat>)
    ensures var r := GetNext(remotes, resource, start);
            && (r.Err? <==> resource !in remotes)
            && (r.Ok? ==> var matching := Above(remotes[resource].records, LowerBound(start));
                          && r.value.value <= matching
                          && |r.value.value| == Min(remotes[resource].pageSize, |matching|)
                          && (forall i :: 0 <= i < |r.value.value| ==>
                                r.value.value[i] in remotes[resource].records && r.value.value[i].stamp > LowerBound(start))
                          && (r.value.value == [] <==> remotes[resource].pageSize == 0 || matching == []))
  {
    if resource in remotes {
      var matching := Above(remotes[resource].records, LowerBound(start));
      AboveMembers(remotes[resource].records, LowerBound(start));
      var page := GetNext(remotes, resource, start).value.value;
      assert forall i :: 0 <= i < |page| ==> page[i] in matching;
    }
  }

  /** `page.count.as_deref().unwrap_or("0")` */
  function CountText(page: Page): string {
    if page.count.Some? then page.count.value else "0"
  }

  // ---------------------------------------------------------------------
  // One round: mirror_next

  /**
   * The percentage of the progress log line, from the remote's count of
   * matching records and the stored count read before the round; absent
   * when both are zero, where the division panics.
   */
  function ProgressPercent(remaining: nat, stored: nat): Option<nat> {
    if ProgressDivisor(remaining, stored) == 0 then None
    else Some(100 - (remaining * 100) / ProgressDivisor(remaining, stored))
  }

  /** `remaining + count.unwrap_or(0)`, the divisor of the percentage. */
  function ProgressDivisor(remaining: nat, stored: nat): nat {
    remaining + stored
  }

  lemma ProgressPercentMeaning(remaining: nat, stored: nat)
    ensures var p := ProgressPercent(remaining, stored);
            && (p.None? <==> remaining == 0 && stored == 0)
            && (p.Some? ==> 0 <= p.value <= 100)
            && (p.Some? && remaining == 0 ==> p.value == 100)
            && (p.Some? && stored == 0 ==> p.value == 0)
  {
    var total := ProgressDivisor(remaining, stored);
    if total != 0 {
      ScaledShareAtMost(remaining, total);
      if stored == 0 {
        ScaledShareWhole(total);
      }
    }
  }

  /** A part scaled to a hundredth of the whole is at most 100. */
  lemma ScaledShareAtMost(part: nat, whole: nat)
    requires 0 < whole && part <= whole
    ensures (part * 100) / whole <= 100
  {
    assert part * 100 <= whole * 100;
  }

  lemma ScaledShareWhole(whole: nat)
    requires 0 < whole
    ensures (whole * 100) / whole == 100
  {
  }

  /** The rows a page writes, and the error of the record where writing stopped. */
  datatype Written = Written(rows: seq<Row>, failure: Option<InsertError>)

  function Extend(rows: seq<Row>, w: Written): Written {
    Written(rows + w.rows, w.failure)
  }

  /**
   * Inserting the records of a page one by one into a table holding
   * `stored`, stopping at the first that fails; each insert sees the rows
   * written before it.
   */
  function PageRows(catalog: seq<Entity>, table: string, stored: seq<Row>, records: seq<Record>): Written
    decreases records
  {
    if records == [] then Written([], None)
    else
      match InsertOutcome(catalog, Some(stored), table, records[0])
      case Err(e) => Written([], Some(e))
      case Ok(row) => Extend([row], PageRows(catalog, table, stored + [row], records[1..]))
  }

  lemma InsertOutcomeStamp(catalog: seq<Entity>, stored: seq<Row>, table: string, record: Record)
    ensures var o := InsertOutcome(catalog, Some(stored), table, record);
            o.Ok? ==> o.value.stamp == record.stamp
  {
  }

  /**
   * The page's records are written in page order, each as the row its
   * insert yields, up to the first record that fails, whose error is kept.
   */
  lemma {:induction false} PageRowsMeaning(catalog: seq<Entity>, table: string, stored: seq<Row>, records: seq<Record>)
    ensures var w := PageRows(catalog, table, stored, records);
            && |w.rows| <= |records|
            && (w.failure.None? <==> |w.rows| == |records|)
            && (forall i :: 0 <= i < |w.rows| ==>
                  && InsertOutcome(catalog, Some(stored + w.rows[..i]), table, records[i]) == Ok(w.rows[i])
                  && w.rows[i].stamp == records[i].stamp)
            && (w.failure.Some? ==> InsertOutcome(catalog, Some(stored + w.rows), table, records[|w.rows|]) == Err(w.failure.value))
    decreases records
  {
    if records != [] {
      InsertOutcomeStamp(catalog, stored, table, records[0]);
      match InsertOutcome(catalog, Some(stored), table, records[0])
      case Err(e) =>
        assert stored + [] == stored;
      case Ok(row) =>
        PageRowsMeaning(catalog, table, stored + [row], records[1..]);
        var rest := PageRows(catalog, table, stored + [row], records[1..]);
        ConsPrefixes(stored, row, rest.rows);
        forall i | 0 <= i < |rest.rows| ensures records[i + 1] == records[1..][i] {
        }
    }
  }

  /** The prefixes of `[x] + r` behind `s`, as prefixes of `r` behind `s + [x]`. */
  lemma ConsPrefixes<T>(s: seq<T>, x: T, r: seq<T>)
    ensures s + ([x] + r)[..0] == s
    ensures forall i :: 0 <= i < |r| ==> s + ([x] + r)[..i + 1] == s + [x] + r[..i]
    ensures s + ([x] + r) == s + [x] + r
  {
    forall i | 0 <= i < |r| ensures s + ([x] + r)[..i + 1] == s + [x] + r[..i] {
      assert ([x] + r)[..i + 1] == [x] + r[..i];
    }
  }

  /** Writing from record `i` on: one insert, then the rest. */
  lemma PageRowsAt(catalog: seq<Entity>, table: string, stored: seq<Row>, records: seq<Record>, i: nat, written: seq<Row>)
    requires i < |records|
    ensures var outcome := InsertOutcome(catalog, Some(stored + written), table, records[i]);
            && (outcome.Err? ==> Extend(written, PageRows(catalog, table, stored + written, records[i..]))
                                 == Written(written, Some(outcome.error)))
            && (outcome.Ok? ==> Extend(written, PageRows(catalog, table, stored + written, records[i..]))
                                == Extend(written + [outcome.value], PageRows(catalog, table, stored + (written + [outcome.value]), records[i + 1..])))
  {
    assert records[i..][0] == records[i] && records[i..][1..] == records[i + 1..];
    assert written + [] == written;
    var outcome := InsertOutcome(catalog, Some(stored + written), table, records[i]);
    if outcome.Ok? {
      var row := outcome.value;
      assert stored + written + [row] == stored + (written + [row]);
      var rest := PageRows(catalog, table, stored + (written + [row]), records[i + 1..]);
      assert written + ([row] + rest.rows) == written + [row] + rest.rows;
    }
  }

  /**
   * `mirror_next` as a function of the stored tables: read the watermark,
   * fetch the next page, insert its records, read the remaining count.
   * `parses` says whether the stored maximum parses back as a timestamp.
   */
  function MirrorSpec(catalog: seq<Entity>, remotes: map<string, Remote>, resource: string, tables: Tables, parses: bool, logged: bool)
    : (Tables, Result<Page, MirrorError>)
  {
    if resource !in tables then (tables, Err(StoreQueryFailed))
    else
      var rows := tables[resource];
      match GetNext(remotes, resource, Watermark(rows, parses))
      case Err(e) => (tables, Err(FetchFailed(e)))
      case Ok(page) =>
        var written := PageRows(catalog, resource, rows, page.value);
        var after := tables[resource := rows + written.rows];
        if written.failure.Some? then (after, Err(InsertFailed(written.failure.value)))
        else if ParseU32(CountText(page)).None? then (after, Err(BadCount))
        else if logged && page.value != [] && ProgressDivisor(ParseU32(CountText(page)).value, |rows|) == 0
        then (after, Err(ProgressUndefined))
        else (after, Ok(page))
  }

  /**
   * One round changes only the entity's own table, and only by appending:
   * every stored row stays in place, even when the round fails.
   */
  lemma MirrorFrame(catalog: seq<Entity>, remotes: map<string, Remote>, resource: string, tables: Tables, parses: bool, logged: bool)
    ensures var after := MirrorSpec(catalog, remotes, resource, tables, parses, logged).0;
            && after.Keys == tables.Keys
            && (forall n :: n in tables && n != resource ==> after[n] == tables[n])
            && (resource in tables ==> tables[resource] <= after[resource])
  {
    if resource in tables {
      var got := GetNext(remotes, resource, Watermark(tables[resource], parses));
      if got.Ok? {
        var written := PageRows(catalog, resource, tables[resource], got.value.value).rows;
        assert tables[resource] <= tables[resource] + written;
      }
    }
  }

  /**
   * A successful round appends exactly one row per page record, in page
   * order, each the row its insert yields against the table as it then
   * stood, with the record's timestamp.
   */
  lemma MirrorAppendsPage(catalog: seq<Entity>, remotes: map<string, Remote>, resource: string, tables: Tables, parses: bool, logged: bool)
    ensures var (after, r) := MirrorSpec(catalog, remotes, resource, tables, parses, logged);
            r.Ok? ==> && resource in tables
                      && |after[resource]| == |tables[resource]| + |r.value.value|
                      && forall i :: 0 <= i < |r.value.value| ==>
                           && InsertOutcome(catalog, Some(after[resource][..|tables[resource]| + i]), resource, r.value.value[i])
                              == Ok(after[resource][|tables[resource]| + i])
                           && after[resource][|tables[resource]| + i].stamp == r.value.value[i].stamp
  {
    if resource in tables {
      var rows := tables[resource];
      var got := GetNext(remotes, resource, Watermark(rows, parses));
      if got.Ok? {
        var page := got.value.value;
        var (after, r) := MirrorSpec(catalog, remotes, resource, tables, parses, logged);
        var w := PageRows(catalog, resource, rows, page);
        if r.Ok? {
          assert r.value.value == page && after[resource] == rows + w.rows;
          PageRowsMeaning(catalog, resource, rows, page);
          forall i | 0 <= i < |page|
            ensures InsertOutcome(catalog, Some(after[resource][..|rows| + i]), resource, page[i]) == Ok(after[resource][|rows| + i])
          {
            assert after[resource][..|rows| + i] == rows + w.rows[..i];
            assert after[resource][|rows| + i] == w.rows[i];
          }
        }
      }
    }
  }

  /**
   * The filter is strict: when the stored maximum reads back, every record
   * a round fetches is newer than every stored row.
   */
  lemma MirrorFetchesNewer(catalog: seq<Entity>, remotes: map<string, Remote>, resource: string, tables: Tables, logged: bool)
    ensures var r := MirrorSpec(catalog, remotes, resource, tables, true, logged).1;
            r.Ok? ==> forall i, j :: 0 <= i < |r.value.value| && 0 <= j < |tables[resource]| ==>
                        tables[resource][j].stamp < r.value.value[i].stamp
  {
    if resource in tables {
      var rows := tables[resource];
      GetNextMeaning(remotes, resource, Watermark(rows, true));
      WatermarkMeaning(rows, true);
    }
  }

  /** A table that keeps its rows never lowers its watermark. */
  lemma WatermarkNeverDecreases(rows: seq<Row>, later: seq<Row>)
    requires rows <= later
    ensures Watermark(rows, true).Some? ==>
              Watermark(later, true).Some? && Watermark(rows, true).value <= Watermark(later, true).value
  {
    WatermarkMeaning(rows, true);
    WatermarkMeaning(later, true);
    if rows != [] {
      var i :| 0 <= i < |rows| && rows[i].stamp == Watermark(rows, true).value;
      assert later[i] == rows[i];
    }
  }

  /**
   * The insert loop of `mirror_next`: one insert per record of the page, in
   * page order, stopping at the first that fails.
   */
  method WritePage(db: Database, catalog: seq<Entity>, resource: string, records: seq<Record>)
    returns (failure: Option<InsertError>)
    requires ValidCatalog(catalog) && resource in db.tables
    modifies db
    ensures var w := PageRows(catalog, resource, old(db.tables)[resource], records);
            db.tables == old(db.tables)[resource := old(db.tables)[resource] + w.rows] && failure == w.failure
  {
    var rows := db.tables[resource];
    ghost var written: seq<Row> := [];
    assert records[0..] == records;
    assert rows + written == rows;
    assert PageRows(catalog, resource, rows, records) == Extend([], PageRows(catalog, resource, rows + written, records[0..]));
    assert old(db.tables)[resource := rows + written] == old(db.tables);
    var i := 0;
    while i < |records|
      invariant 0 <= i <= |records|
      invariant db.tables == old(db.tables)[resource := rows + written]
      invariant PageRows(catalog, resource, rows, records) == Extend(written, PageRows(catalog, resource, rows + written, records[i..]))
    {
      PageRowsAt(catalog, resource, rows, records, i, written);
      assert Stored(db.tables, resource) == Some(rows + written);
      var inserted := db.Insert(catalog, resource, records[i]);
      if inserted.Err? {
        return Some(inserted.error);
      }
      ghost var row := InsertOutcome(catalog, Some(rows + written), resource, records[i]).value;
      assert rows + written + [row] == rows + (written + [row]);
      written := written + [row];
      i := i + 1;
    }
    assert records[i..] == [];
    assert written + [] == written;
    return None;
  }

  /**
   * `mirror_next`: the watermark query, the request, the inserts (each
   * panics on failure), the parse of the count and the progress log line.
   */
  method MirrorNext(db: Database, catalog: seq<Entity>, remotes: map<string, Remote>, resource: string, parses: bool, logged: bool)
    returns (r: Result<Page, MirrorError>)
    requires ValidCatalog(catalog)
    modifies db
    ensures (db.tables, r) == MirrorSpec(catalog, remotes, resource, old(db.tables), parses, logged)
  {
    if resource !in db.tables {
      return Err(StoreQueryFailed);
    }
    var rows := db.tables[resource];
    var fetched := GetNext(remotes, resource, Watermark(rows, parses));
    if fetched.Err? {
      return Err(FetchFailed(fetched.error));
    }
    var page := fetched.value;
    var failure := WritePage(db, catalog, resource, page.value);
    if failure.Some? {
      return Err(InsertFailed(failure.value));
    }
    var remaining := ParseU32(CountText(page));
    if remaining.None? {
      return Err(BadCount);
    }
    if logged && |page.value| > 0 && ProgressDivisor(remaining.value, |rows|) == 0 {
      return Err(ProgressUndefined);
    }
    return Ok(page);
  }

  // ---------------------------------------------------------------------
  // Draining one entity type

  /** What is still to fetch: the remote records above the stored watermark. */
  function Pending(remotes: map<string, Remote>, resource: string, tables: Tables): nat {
    if resource in remotes && resource in tables
    then |Above(remotes[resource].records, LowerBound(Watermark(tables[resource], true)))|
    else 0
  }

  lemma {:induction false} AboveShrinks(records: seq<Record>, low: nat, high: nat, x: Record)
    requires low <= high && x in records && low < x.stamp <= high
    ensures |Above(records, high)| < |Above(records, low)|
  {
    if records[0] == x {
      AboveNoLarger(records[1..], low, high);
    } else {
      AboveShrinks(records[1..], low, high, x);
    }
  }

  lemma {:induction false} AboveNoLarger(records: seq<Record>, low: nat, high: nat)
    requires low <= high
    ensures |Above(records, high)| <= |Above(records, low)|
  {
    if records != [] {
      AboveNoLarger(records[1..], low, high);
    }
  }

  /** A round that returns a non-empty page leaves less to fetch. */
  lemma MirrorProgress(catalog: seq<Entity>, remotes: map<string, Remote>, resource: string, tables: Tables, logged: bool)
    requires MirrorSpec(catalog, remotes, resource, tables, true, logged).1.Ok?
    requires MirrorSpec(catalog, remotes, resource, tables, true, logged).1.value.value != []
    ensures Pending(remotes, resource, MirrorSpec(catalog, remotes, resource, tables, true, logged).0) < Pending(remotes, resource, tables)
  {
    var (after, r) := MirrorSpec(catalog, remotes, resource, tables, true, logged);
    MirrorAppendsPage(catalog, remotes, resource, tables, true, logged);
    var rows := tables[resource];
    var low := LowerBound(Watermark(rows, true));
    var first := r.value.value[0];
    GetNextMeaning(remotes, resource, Watermark(rows, true));
    assert after[resource][|rows|].stamp == first.stamp;
    var high := LowerBound(Watermark(after[resource], true));
    WatermarkNeverDecreases(rows, after[resource]);
    WatermarkMeaning(after[resource], true);
    AboveShrinks(remotes[resource].records, low, high, first);
  }

  /** Adds the requests of the rounds before to an outcome. */
  function AddRequests(n: nat, outcome: (Tables, Result<nat, MirrorError>)): (Tables, Result<nat, MirrorError>) {
    (outcome.0, if outcome.1.Ok? then Ok(n + outcome.1.value) else outcome.1)
  }

  lemma AddRequestsTwice(m: nat, n: nat, outcome: (Tables, Result<nat, MirrorError>))
    ensures AddRequests(m, AddRequests(n, outcome)) == AddRequests(m + n, outcome)
  {
  }

  /**
   * `loop { if mirror_next(...).value.len() == 0 { break } }`: the final
   * tables and the number of requests, or the error that ended the loop.
   */
  function DrainSpec(catalog: seq<Entity>, remotes: map<string, Remote>, resource: string, tables: Tables, logged: bool)
    : (Tables, Result<nat, MirrorError>)
    decreases Pending(remotes, resource, tables)
  {
    var (after, r) := MirrorSpec(catalog, remotes, resource, tables, true, logged);
    if r.Err? then (after, Err(r.error))
    else if r.value.value == [] then (after, Ok(1))
    else
      MirrorProgress(catalog, remotes, resource, tables, logged);
      AddRequests(1, DrainSpec(catalog, remotes, resource, after, logged))
  }

  /** One unfolding of the drain, with the progress that justifies it. */
  lemma DrainStep(catalog: seq<Entity>, remotes: map<string, Remote>, resource: string, tables: Tables, logged: bool)
    ensures var (after, r) := MirrorSpec(catalog, remotes, resource, tables, true, logged);
            && (r.Err? ==> DrainSpec(catalog, remotes, resource, tables, logged) == (after, Err(r.error)))
            && (r.Ok? && r.value.value == [] ==> DrainSpec(catalog, remotes, resource, tables, logged) == (after, Ok(1)))
            && (r.Ok? && r.value.value != [] ==>
                  && Pending(remotes, resource, after) < Pending(remotes, resource, tables)
                  && DrainSpec(catalog, remotes, resource, tables, logged) == AddRequests(1, DrainSpec(catalog, remotes, resource, after, logged)))
  {
    var (after, r) := MirrorSpec(catalog, remotes, resource, tables, true, logged);
    if r.Ok? && r.value.value != [] {
      MirrorProgress(catalog, remotes, resource, tables, logged);
    }
  }

  /** What is left of a drain after one more round. */
  lemma DrainAdvance(catalog: seq<Entity>, remotes: map<string, Remote>, resource: string, tables: Tables, logged: bool,
                     requests: nat, after: Tables, page: Result<Page, MirrorError>)
    requires (after, page) == MirrorSpec(catalog, remotes, resource, tables, true, logged)
    ensures page.Err? ==> AddRequests(requests, DrainSpec(catalog, remotes, resource, tables, logged)) == (after, Err(page.error))
    ensures page.Ok? && page.value.value == [] ==>
              AddRequests(requests, DrainSpec(catalog, remotes, resource, tables, logged)) == (after, Ok(requests + 1))
    ensures page.Ok? && page.value.value != [] ==>
              && Pending(remotes, resource, after) < Pending(remotes, resource, tables)
              && AddRequests(requests, DrainSpec(catalog, remotes, resource, tables, logged))
                 == AddRequests(requests + 1, DrainSpec(catalog, remotes, resource, after, logged))
  {
    DrainStep(catalog, remotes, resource, tables, logged);
    AddRequestsTwice(requests, 1, DrainSpec(catalog, remotes, resource, after, logged));
  }

  /** The inner loop of `synchronize` for one entity type. */
  method Drain(db: Database, catalog: seq<Entity>, remotes: map<string, Remote>, resource: string, logged: bool)
    returns (r: Result<nat, MirrorError>)
    requires ValidCatalog(catalog)
    modifies db
    ensures (db.tables, r) == DrainSpec(catalog, remotes, resource, old(db.tables), logged)
  {
    var requests := 0;
    while true
      invariant DrainSpec(catalog, remotes, resource, old(db.tables), logged)
                == AddRequests(requests, DrainSpec(catalog, remotes, resource, db.tables, logged))
      decreases Pending(remotes, resource, db.tables)
    {
      ghost var before := db.tables;
      var page := MirrorNext(db, catalog, remotes, resource, true, logged);
      DrainAdvance(catalog, remotes, resource, before, logged, requests, db.tables, page);
      requests := requests + 1;
      if page.Err? {
        return Err(page.error);
      }
      if |page.value.value| == 0 {
        return Ok(requests);
      }
    }
  }

  /**
   * A drain changes only its own table, and only by appending rows: the
   * stored rows stay in place and no table is created or dropped.
   */
  lemma {:induction false} DrainFrame(catalog: seq<Entity>, remotes: map<string, Remote>, resource: string, tables: Tables, logged: bool)
    ensures var after := DrainSpec(catalog, remotes, resource, tables, logged).0;
            && after.Keys == tables.Keys
            && (forall n :: n in tables && n != resource ==> after[n] == tables[n])
            && (resource in tables ==> tables[resource] <= after[resource])
    decreases Pending(remotes, resource, tables)
  {
    DrainStep(catalog, remotes, resource, tables, logged);
    MirrorFrame(catalog, remotes, resource, tables, true, logged);
    var (after, r) := MirrorSpec(catalog, remotes, resource, tables, true, logged);
    if r.Ok? && r.value.value != [] {
      DrainFrame(catalog, remotes, resource, after, logged);
      var last := DrainSpec(catalog, remotes, resource, after, logged).0;
      if resource in tables {
        PrefixTransitive(tables[resource], after[resource], last[resource]);
      }
    }
  }

  lemma PrefixTransitive<T>(a: seq<T>, b: seq<T>, c: seq<T>)
    requires a <= b && b <= c
    ensures a <= c
  {
    assert forall i :: 0 <= i < |a| ==> a[i] == b[i] == c[i];
  }

  /** A drain reads only the remote endpoint of its own entity type. */
  lemma {:induction false} DrainReadsOwnRemote(catalog: seq<Entity>, remotes: map<string, Remote>, other: map<string, Remote>,
                                               resource: string, tables: Tables, logged: bool)
    requires resource in remotes <==> resource in other
    requires resource in remotes ==> remotes[resource] == other[resource]
    ensures DrainSpec(catalog, remotes, resource, tables, logged) == DrainSpec(catalog, other, resource, tables, logged)
    decreases Pending(remotes, resource, tables)
  {
    var start := Watermark(if resource in tables then tables[resource] else [], true);
    assert GetNext(remotes, resource, start) == GetNext(other, resource, start);
    assert MirrorSpec(catalog, remotes, resource, tables, true, logged) == MirrorSpec(catalog, other, resource, tables, true, logged);
    DrainStep(catalog, remotes, resource, tables, logged);
    DrainStep(catalog, other, resource, tables, logged);
    var (after, r) := MirrorSpec(catalog, remotes, resource, tables, true, logged);
    if r.Ok? && r.value.value != [] {
      DrainReadsOwnRemote(catalog, remotes, other, resource, after, logged);
    }
  }

  // ---------------------------------------------------------------------
  // What a drain mirrors

  /** The remote sorts on update time and no two records share a timestamp. */
  predicate StrictlyIncreasing(records: seq<Record>) {
    forall i, j :: 0 <= i < j < |records| ==> records[i].stamp < records[j].stamp
  }

  /**
   * The premise on the records a page will insert: the entity type is in
   * the catalog with at least one column, every record binds against its columns, and no two of the
   * bound rows, nor a bound row and a stored row, share a primary key.
   */
  predicate Insertable(catalog: seq<Entity>, table: string, stored: seq<Row>, records: seq<Record>) {
    && FindEntity(catalog, table).Some?
    && var entity := FindEntity(catalog, table).value;
       && entity.columns != []
       && (forall i :: 0 <= i < |records| ==> BuildRow(entity.columns, records[i]).Ok?)
       && (forall i, j :: 0 <= i < j < |records| ==>
             !SameKey(entity.key, BuildRow(entity.columns, records[i]).value, BuildRow(entity.columns, records[j]).value))
       && (forall i, n :: 0 <= i < |records| && 0 <= n < |stored| ==>
             !SameKey(entity.key, stored[n], BuildRow(entity.columns, records[i]).value))
  }

  /** Any run of insertable records is insertable. */
  lemma InsertablePrefix(catalog: seq<Entity>, table: string, stored: seq<Row>, records: seq<Record>, k: nat)
    requires Insertable(catalog, table, stored, records) && k <= |records|
    ensures Insertable(catalog, table, stored, records[..k])
  {
    var page := records[..k];
    assert forall i :: 0 <= i < k ==> page[i] == records[i];
  }

  /**
   * Once the first `k` records are stored as the rows they bind to, the
   * rest are insertable into the grown table.
   */
  lemma InsertableRest(catalog: seq<Entity>, table: string, stored: seq<Row>, records: seq<Record>, k: nat, written: seq<Row>)
    requires Insertable(catalog, table, stored, records) && k <= |records|
    requires |written| == k
    requires forall i :: 0 <= i < k ==> written[i] == BuildRow(FindEntity(catalog, table).value.columns, records[i]).value
    ensures Insertable(catalog, table, stored + written, records[k..])
  {
    var entity := FindEntity(catalog, table).value;
    var rest := records[k..];
    var grown := stored + written;
    assert forall i :: 0 <= i < |rest| ==> rest[i] == records[k + i];
    forall i, n | 0 <= i < |rest| && 0 <= n < |grown|
      ensures !SameKey(entity.key, grown[n], BuildRow(entity.columns, rest[i]).value)
    {
      if n < |stored| {
        assert grown[n] == stored[n];
      } else {
        assert grown[n] == written[n - |stored|];
      }
    }
  }

  /** The number of non-empty pages of `n` records at `size` records per page. */
  function PageCount(n: nat, size: nat): nat
    requires size > 0
  {
    if n == 0 then 0 else 1 + PageCount(n - Min(size, n), size)
  }

  /** Writing a page that fails nowhere, then more into the grown table. */
  lemma {:induction false} PageRowsAppend(catalog: seq<Entity>, table: string, stored: seq<Row>, first: seq<Record>, rest: seq<Record>)
    requires PageRows(catalog, table, stored, first).failure.None?
    ensures var w := PageRows(catalog, table, stored, first);
            PageRows(catalog, table, stored, first + rest) == Extend(w.rows, PageRows(catalog, table, stored + w.rows, rest))
    decreases first
  {
    if first == [] {
      assert first + rest == rest;
      assert stored + [] == stored;
    } else {
      var x, xs := first[0], first[1..];
      assert first == [x] + xs;
      assert first + rest == [x] + (xs + rest);
      var o := InsertOutcome(catalog, Some(stored), table, x);
      PageRowsCons(catalog, table, stored, x, xs);
      PageRowsCons(catalog, table, stored, x, xs + rest);
      var v := o.value;
      var tail := PageRows(catalog, table, stored + [v], xs);
      PageRowsAppend(catalog, table, stored + [v], xs, rest);
      var w := PageRows(catalog, table, stored, first);
      assert w == Extend([v], tail);
      ConcatAssoc(stored, [v], tail.rows);
      ExtendCons(o, w, PageRows(catalog, table, stored, first + rest),
                 tail, PageRows(catalog, table, stored + [v], xs + rest), PageRows(catalog, table, stored + w.rows, rest));
    }
  }

  lemma ConcatAssoc<T>(a: seq<T>, b: seq<T>, c: seq<T>)
    ensures a + (b + c) == a + b + c
  {
  }

  lemma ExtendCons(o: Result<Row, InsertError>, first: Written, whole: Written, tail: Written, tailRest: Written, rest: Written)
    requires first.failure.None?
    requires first == (if o.Ok? then Extend([o.value], tail) else Written([], Some(o.error)))
    requires whole == (if o.Ok? then Extend([o.value], tailRest) else Written([], Some(o.error)))
    requires tail.failure.None? ==> tailRest == Extend(tail.rows, rest)
    ensures whole == Extend(first.rows, rest)
  {
    assert [o.value] + (tail.rows + rest.rows) == [o.value] + tail.rows + rest.rows;
  }

  /** Unfolding `PageRows` at a first record. */
  lemma PageRowsCons(catalog: seq<Entity>, table: string, stored: seq<Row>, x: Record, xs: seq<Record>)
    ensures var o := InsertOutcome(catalog, Some(stored), table, x);
            PageRows(catalog, table, stored, [x] + xs)
            == if o.Ok? then Extend([o.value], PageRows(catalog, table, stored + [o.value], xs)) else Written([], Some(o.error))
  {
    assert ([x] + xs)[0] == x && ([x] + xs)[1..] == xs;
  }

  /**
   * Insertable records are all written: one row each, the row the record
   * binds to, with the record's timestamp.
   */
  lemma {:induction false} PageRowsComplete(catalog: seq<Entity>, table: string, stored: seq<Row>, records: seq<Record>)
    requires Insertable(catalog, table, stored, records)
    ensures var w := PageRows(catalog, table, stored, records);
            var columns := FindEntity(catalog, table).value.columns;
            && w.failure.None? && |w.rows| == |records|
            && forall i :: 0 <= i < |records| ==>
                 w.rows[i] == BuildRow(columns, records[i]).value && w.rows[i].stamp == records[i].stamp
    decreases records
  {
    if records != [] {
      var entity := FindEntity(catalog, table).value;
      var row := BuildRow(entity.columns, records[0]).value;
      assert !KeyTaken(entity.key, stored, row) by {
        forall n | 0 <= n < |stored| ensures !SameKey(entity.key, stored[n], row) {
        }
      }
      assert InsertOutcome(catalog, Some(stored), table, records[0]) == Ok(row);
      InsertableRest(catalog, table, stored, records, 1, [row]);
      PageRowsComplete(catalog, table, stored + [row], records[1..]);
      var rest := PageRows(catalog, table, stored + [row], records[1..]).rows;
      assert forall i :: 0 <= i < |rest| ==> records[1..][i] == records[i + 1];
    }
  }

  /** Above a bound that splits the records, the filter keeps exactly the part after the split. */
  lemma {:induction false} AboveSplit(records: seq<Record>, bound: nat, k: nat)
    requires k <= |records|
    requires forall i :: 0 <= i < k ==> records[i].stamp <= bound
    requires forall i :: k <= i < |records| ==> records[i].stamp > bound
    ensures Above(records, bound) == records[k..]
  {
    if records != [] {
      var rest := records[1..];
      if k > 0 {
        AboveSplit(rest, bound, k - 1);
        assert rest[k - 1..] == records[k..];
      } else {
        AboveSplit(rest, bound, 0);
        assert [records[0]] + rest == records;
      }
    }
  }

  /** Filtering twice keeps what the higher bound keeps. */
  lemma {:induction false} AboveTwice(records: seq<Record>, low: nat, high: nat)
    requires low <= high
    ensures Above(Above(records, low), high) == Above(records, high)
  {
    if records != [] {
      AboveTwice(records[1..], low, high);
      var head := if records[0].stamp > low then [records[0]] else [];
      AboveConcat(head, Above(records[1..], low), high);
    }
  }

  lemma {:induction false} AboveConcat(a: seq<Record>, b: seq<Record>, bound: nat)
    ensures Above(a + b, bound) == Above(a, bound) + Above(b, bound)
  {
    if a == [] {
      assert a + b == b;
    } else {
      ConcatTail(a, b);
      AboveConcat(a[1..], b, bound);
    }
  }

  lemma ConcatTail<T>(a: seq<T>, b: seq<T>)
    requires a != []
    ensures (a + b)[0] == a[0] && (a + b)[1..] == a[1..] + b
  {
  }

  /** Filtering keeps the order of a strictly increasing sequence. */
  lemma {:induction false} AboveIncreasing(records: seq<Record>, bound: nat)
    requires StrictlyIncreasing(records)
    ensures StrictlyIncreasing(Above(records, bound))
  {
    if records != [] {
      var rest := records[1..];
      TailIncreasing(records);
      AboveIncreasing(rest, bound);
      var tail := Above(rest, bound);
      assert forall x :: x in tail ==> records[0].stamp < x.stamp by {
        AboveMembers(rest, bound);
        HeadBelowTail(records);
      }
      if records[0].stamp > bound {
        ConsIncreasing(records[0], tail);
      } else {
        assert [] + tail == tail;
      }
    }
  }

  lemma TailIncreasing(records: seq<Record>)
    requires records != [] && StrictlyIncreasing(records)
    ensures StrictlyIncreasing(records[1..])
  {
    var rest := records[1..];
    forall i, j | 0 <= i < j < |rest| ensures rest[i].stamp < rest[j].stamp {
      assert rest[i] == records[i + 1] && rest[j] == records[j + 1];
    }
  }

  lemma HeadBelowTail(records: seq<Record>)
    requires records != [] && StrictlyIncreasing(records)
    ensures forall x :: x in records[1..] ==> records[0].stamp < x.stamp
  {
    forall x | x in records[1..] ensures records[0].stamp < x.stamp {
      var j :| 0 <= j < |records[1..]| && records[1..][j] == x;
      assert records[j + 1] == x;
    }
  }

  lemma ConsIncreasing(head: Record, tail: seq<Record>)
    requires StrictlyIncreasing(tail)
    requires forall x :: x in tail ==> head.stamp < x.stamp
    ensures StrictlyIncreasing([head] + tail)
  {
    var all := [head] + tail;
    forall i, j | 0 <= i < j < |all| ensures all[i].stamp < all[j].stamp {
      assert all[j] == tail[j - 1] && all[j] in tail;
      if i > 0 {
        assert all[i] == tail[i - 1];
      }
    }
  }

  /** Rows whose largest timestamp is `m` read back as watermark `m`. */
  lemma WatermarkIs(rows: seq<Row>, k: nat, m: nat)
    requires k < |rows| && rows[k].stamp == m
    requires forall i :: 0 <= i < |rows| ==> rows[i].stamp <= m
    ensures Watermark(rows, true) == Some(m)
  {
    WatermarkMeaning(rows, true);
  }

  /** The premises under which a drain mirrors every record above the watermark. */
  predicate Mirrorable(catalog: seq<Entity>, remotes: map<string, Remote>, resource: string, tables: Tables, logged: bool) {
    && resource in tables && resource in remotes
    && StrictlyIncreasing(remotes[resource].records)
    && remotes[resource].pageSize > 0
    && |remotes[resource].records| < U32Limit
    && (logged ==> remotes[resource].inlineCount)
    && Insertable(catalog, resource, tables[resource], Unmirrored(remotes, resource, tables))
  }

  /** The records above the stored watermark that the next round asks for. */
  function Unmirrored(remotes: map<string, Remote>, resource: string, tables: Tables): seq<Record>
    requires resource in tables && resource in remotes
  {
    Above(remotes[resource].records, LowerBound(Watermark(tables[resource], true)))
  }

  /**
   * Under the premises a round succeeds: it fetches the first page of the
   * unmirrored records and writes all of it.
   */
  lemma RoundSucceeds(catalog: seq<Entity>, remotes: map<string, Remote>, resource: string, tables: Tables, logged: bool)
    requires Mirrorable(catalog, remotes, resource, tables, logged)
    ensures var pending := Unmirrored(remotes, resource, tables);
            var page := pending[..Min(remotes[resource].pageSize, |pending|)];
            var w := PageRows(catalog, resource, tables[resource], page);
            && w.failure.None?
            && MirrorSpec(catalog, remotes, resource, tables, true, logged).0 == tables[resource := tables[resource] + w.rows]
            && MirrorSpec(catalog, remotes, resource, tables, true, logged).1.Ok?
            && MirrorSpec(catalog, remotes, resource, tables, true, logged).1.value.value == page
  {
    var remote := remotes[resource];
    var rows := tables[resource];
    var pending := Unmirrored(remotes, resource, tables);
    var k := Min(remote.pageSize, |pending|);
    var page := pending[..k];
    var fetched := GetNext(remotes, resource, Watermark(rows, true)).value;
    assert fetched.value == page;
    InsertablePrefix(catalog, resource, rows, pending, k);
    PageRowsComplete(catalog, resource, rows, page);
    ParseU32Decimal(|pending|);
    ParseU32Decimal(0);
    assert NatToDecimal(0) == "0";
  }

  /** After a round of `k` records, the next watermark is the last record's timestamp. */
  lemma NextWatermark(catalog: seq<Entity>, remotes: map<string, Remote>, resource: string, tables: Tables, k: nat)
    requires Mirrorable(catalog, remotes, resource, tables, false)
    requires 0 < k <= |Unmirrored(remotes, resource, tables)|
    ensures var pending := Unmirrored(remotes, resource, tables);
            var rows := tables[resource] + PageRows(catalog, resource, tables[resource], pending[..k]).rows;
            && Watermark(rows, true) == Some(pending[k - 1].stamp)
            && Unmirrored(remotes, resource, tables[resource := rows]) == pending[k..]
  {
    var records := remotes[resource].records;
    var stored := tables[resource];
    var low := LowerBound(Watermark(stored, true));
    var pending := Unmirrored(remotes, resource, tables);
    var page := pending[..k];
    var written := PageRows(catalog, resource, stored, page).rows;
    var last := pending[k - 1].stamp;
    AboveIncreasing(records, low);
    assert low < last by {
      AboveMembers(records, low);
      assert pending[k - 1] in pending;
    }
    assert Watermark(stored + written, true) == Some(last) by {
      assert forall i :: 0 <= i < |stored| ==> stored[i].stamp <= last by {
        WatermarkMeaning(stored, true);
        AboveMembers(records, low);
        assert pending[0] in pending;
      }
      WrittenPageStamps(catalog, resource, stored, pending, k);
      AppendedRowsBelow(stored, written, last);
      assert (stored + written)[|stored| + k - 1] == written[k - 1];
      WatermarkIs(stored + written, |stored| + k - 1, last);
    }
    assert Above(records, last) == pending[k..] by {
      AboveTwice(records, low, last);
      AboveSplit(pending, last, k);
    }
  }

  /** The first `k` insertable records of an increasing run are written whole, the last with the largest stamp. */
  lemma WrittenPageStamps(catalog: seq<Entity>, table: string, stored: seq<Row>, pending: seq<Record>, k: nat)
    requires Insertable(catalog, table, stored, pending) && StrictlyIncreasing(pending) && 0 < k <= |pending|
    ensures var written := PageRows(catalog, table, stored, pending[..k]).rows;
            && |written| == k && written[k - 1].stamp == pending[k - 1].stamp
            && forall i :: 0 <= i < k ==> written[i].stamp <= pending[k - 1].stamp
  {
    InsertablePrefix(catalog, table, stored, pending, k);
    PageRowsComplete(catalog, table, stored, pending[..k]);
  }

  lemma AppendedRowsBelow(stored: seq<Row>, written: seq<Row>, m: nat)
    requires forall i :: 0 <= i < |stored| ==> stored[i].stamp <= m
    requires forall i :: 0 <= i < |written| ==> written[i].stamp <= m
    ensures forall i :: 0 <= i < |stored + written| ==> (stored + written)[i].stamp <= m
  {
  }

  /** The premises still hold after a round of `k` records. */
  lemma MirrorableAfter(catalog: seq<Entity>, remotes: map<string, Remote>, resource: string, tables: Tables, logged: bool, k: nat)
    requires Mirrorable(catalog, remotes, resource, tables, logged)
    requires 0 < k <= |Unmirrored(remotes, resource, tables)|
    ensures var pending := Unmirrored(remotes, resource, tables);
            var rows := tables[resource] + PageRows(catalog, resource, tables[resource], pending[..k]).rows;
            Mirrorable(catalog, remotes, resource, tables[resource := rows], logged)
  {
    var stored := tables[resource];
    var pending := Unmirrored(remotes, resource, tables);
    var written := PageRows(catalog, resource, stored, pending[..k]).rows;
    NextWatermark(catalog, remotes, resource, tables, k);
    InsertablePrefix(catalog, resource, stored, pending, k);
    PageRowsComplete(catalog, resource, stored, pending[..k]);
    assert forall i :: 0 <= i < k ==> pending[..k][i] == pending[i];
    InsertableRest(catalog, resource, stored, pending, k, written);
  }

  /**
   * Completeness: when the remote's timestamps strictly increase, every
   * unmirrored record binds and brings a primary key not yet stored, pages
   * are non-empty and the count reads back, a drain appends the rows of
   * exactly the records above the stored watermark, in remote order, and
   * makes one request per page plus the final empty one.
   */
  lemma {:induction false} DrainMirrorsAll(catalog: seq<Entity>, remotes: map<string, Remote>, resource: string, tables: Tables, logged: bool)
    requires Mirrorable(catalog, remotes, resource, tables, logged)
    ensures var pending := Unmirrored(remotes, resource, tables);
            var w := PageRows(catalog, resource, tables[resource], pending);
            && w.failure.None?
            && DrainSpec(catalog, remotes, resource, tables, logged)
               == (tables[resource := tables[resource] + w.rows], Ok(PageCount(|pending|, remotes[resource].pageSize) + 1))
    decreases Pending(remotes, resource, tables)
  {
    var size := remotes[resource].pageSize;
    var pending := Unmirrored(remotes, resource, tables);
    var k := Min(size, |pending|);
    var page := pending[..k];
    var written := PageRows(catalog, resource, tables[resource], page).rows;
    var after := tables[resource := tables[resource] + written];
    DrainRound(catalog, remotes, resource, tables, logged, pending, k, written, after);
    if k > 0 {
      MirrorableAfter(catalog, remotes, resource, tables, logged, k);
      DrainMirrorsAll(catalog, remotes, resource, after, logged);
      DrainMirrorsRest(catalog, remotes, resource, tables, k, after,
                       DrainSpec(catalog, remotes, resource, tables, logged), DrainSpec(catalog, remotes, resource, after, logged));
    }
  }

  /** The first round of a drain under the premises of `DrainMirrorsAll`, over named parts. */
  lemma DrainRound(catalog: seq<Entity>, remotes: map<string, Remote>, resource: string, tables: Tables, logged: bool,
                   pending: seq<Record>, k: nat, written: seq<Row>, after: Tables)
    requires Mirrorable(catalog, remotes, resource, tables, logged)
    requires pending == Unmirrored(remotes, resource, tables) && k == Min(remotes[resource].pageSize, |pending|)
    requires written == PageRows(catalog, resource, tables[resource], pending[..k]).rows
    requires after == tables[resource := tables[resource] + written]
    ensures PageRows(catalog, resource, tables[resource], pending[..k]).failure.None?
    ensures k == 0 ==> DrainSpec(catalog, remotes, resource, tables, logged)
                       == (tables[resource := tables[resource] + PageRows(catalog, resource, tables[resource], pending).rows],
                           Ok(PageCount(|pending|, remotes[resource].pageSize) + 1))
    ensures k > 0 ==> && Pending(remotes, resource, after) < Pending(remotes, resource, tables)
                      && DrainSpec(catalog, remotes, resource, tables, logged)
                         == AddRequests(1, DrainSpec(catalog, remotes, resource, after, logged))
  {
    RoundSucceeds(catalog, remotes, resource, tables, logged);
    DrainStep(catalog, remotes, resource, tables, logged);
    if k == 0 {
      assert pending[..k] == pending == [];
    }
  }

  /**
   * The rest of a drain after a first round of `k` records: `whole` is the
   * drain's outcome when `tail`, the outcome from the next state on, is
   * the one `DrainMirrorsAll` states for that state.
   */
  lemma DrainMirrorsRest(catalog: seq<Entity>, remotes: map<string, Remote>, resource: string, tables: Tables, k: nat, after: Tables,
                         whole: (Tables, Result<nat, MirrorError>), tail: (Tables, Result<nat, MirrorError>))
    requires Mirrorable(catalog, remotes, resource, tables, false)
    requires 0 < k == Min(remotes[resource].pageSize, |Unmirrored(remotes, resource, tables)|)
    requires PageRows(catalog, resource, tables[resource], Unmirrored(remotes, resource, tables)[..k]).failure.None?
    requires after == tables[resource := tables[resource] + PageRows(catalog, resource, tables[resource], Unmirrored(remotes, resource, tables)[..k]).rows]
    requires PageRows(catalog, resource, after[resource], Unmirrored(remotes, resource, after)).failure.None?
    requires whole == AddRequests(1, tail)
    requires tail == (after[resource := after[resource] + PageRows(catalog, resource, after[resource], Unmirrored(remotes, resource, after)).rows],
                      Ok(PageCount(|Unmirrored(remotes, resource, after)|, remotes[resource].pageSize) + 1))
    ensures var pending := Unmirrored(remotes, resource, tables);
            && PageRows(catalog, resource, tables[resource], pending).failure.None?
            && whole == (tables[resource := tables[resource] + PageRows(catalog, resource, tables[resource], pending).rows],
                      Ok(PageCount(|pending|, remotes[resource].pageSize) + 1))
  {
    var size := remotes[resource].pageSize;
    var stored := tables[resource];
    var pending := Unmirrored(remotes, resource, tables);
    var next := Unmirrored(remotes, resource, after);
    NextWatermark(catalog, remotes, resource, tables, k);
    AppendPages(catalog, resource, stored, pending, k, after[resource], next);
    PageCountStep(|pending|, |next|, size);
    ComposeDrain(tables, resource, after, PageRows(catalog, resource, stored, pending[..k]), PageRows(catalog, resource, after[resource], next),
                 PageRows(catalog, resource, stored, pending), PageCount(|next|, size), PageCount(|pending|, size), whole, tail);
  }

  /** Writing the first `k` records and then the rest into the grown table is writing them all. */
  lemma AppendPages(catalog: seq<Entity>, table: string, stored: seq<Row>, pending: seq<Record>, k: nat, grown: seq<Row>, next: seq<Record>)
    requires k <= |pending| && next == pending[k..]
    requires PageRows(catalog, table, stored, pending[..k]).failure.None?
    requires grown == stored + PageRows(catalog, table, stored, pending[..k]).rows
    ensures PageRows(catalog, table, stored, pending) == Extend(PageRows(catalog, table, stored, pending[..k]).rows, PageRows(catalog, table, grown, next))
  {
    assert pending == pending[..k] + next;
    PageRowsAppend(catalog, table, stored, pending[..k], next);
  }

  /** A first page of `Min(size, n)` records leaves `m` of them for the pages after it. */
  lemma PageCountStep(n: nat, m: nat, size: nat)
    requires 0 < Min(size, n) && m == n - Min(size, n)
    ensures PageCount(n, size) == 1 + PageCount(m, size)
  {
  }

  /** The outcome of a drain whose first round wrote `first`, given the outcome `tail` of the rest. */
  lemma ComposeDrain(tables: Tables, resource: string, after: Tables, first: Written, rest: Written, all: Written,
                     m: nat, n: nat, whole: (Tables, Result<nat, MirrorError>), tail: (Tables, Result<nat, MirrorError>))
    requires resource in tables && after == tables[resource := tables[resource] + first.rows]
    requires all == Extend(first.rows, rest) && rest.failure.None? && n == 1 + m
    requires whole == AddRequests(1, tail)
    requires tail == (after[resource := after[resource] + rest.rows], Ok(m + 1))
    ensures all.failure.None?
    ensures whole == (tables[resource := tables[resource] + all.rows], Ok(n + 1))
  {
    assert after[resource] + rest.rows == tables[resource] + all.rows;
    assert tail.0 == tables[resource := tables[resource] + all.rows];
  }

  /**
   * Mirroring into an empty table, when every record is newer than the
   * epoch: every record is stored, in order, behind one request per page
   * and the final empty one, and the watermark ends at the last record.
   */
  lemma DrainFresh(catalog: seq<Entity>, remotes: map<string, Remote>, resource: string, tables: Tables, logged: bool)
    requires resource in tables && tables[resource] == [] && resource in remotes
    requires var remote := remotes[resource];
             && remote.records != []
             && StrictlyIncreasing(remote.records) && remote.pageSize > 0 && |remote.records| < U32Limit
             && (logged ==> remote.inlineCount)
             && Insertable(catalog, resource, [], remote.records)
             && forall i :: 0 <= i < |remote.records| ==> remote.records[i].stamp > EpochZero
    ensures var records := remotes[resource].records;
            var rows := PageRows(catalog, resource, [], records).rows;
            && DrainSpec(catalog, remotes, resource, tables, logged)
               == (tables[resource := rows], Ok(PageCount(|records|, remotes[resource].pageSize) + 1))
            && |rows| == |records|
            && Watermark(rows, true) == Some(records[|records| - 1].stamp)
  {
    FreshMirrorable(catalog, remotes, resource, tables, logged);
    FreshDrain(catalog, remotes, resource, tables, logged);
    WrittenWatermark(catalog, resource, remotes[resource].records);
  }

  /** The drain part of `DrainFresh`. */
  lemma FreshDrain(catalog: seq<Entity>, remotes: map<string, Remote>, resource: string, tables: Tables, logged: bool)
    requires resource in tables && tables[resource] == []
    requires Mirrorable(catalog, remotes, resource, tables, logged)
    requires Unmirrored(remotes, resource, tables) == remotes[resource].records
    ensures var records := remotes[resource].records;
            DrainSpec(catalog, remotes, resource, tables, logged)
            == (tables[resource := PageRows(catalog, resource, [], records).rows], Ok(PageCount(|records|, remotes[resource].pageSize) + 1))
  {
    var records := remotes[resource].records;
    DrainMirrorsAll(catalog, remotes, resource, tables, logged);
    FreshOutcome(tables, resource, PageRows(catalog, resource, [], records).rows,
                 PageCount(|records|, remotes[resource].pageSize) + 1, DrainSpec(catalog, remotes, resource, tables, logged));
  }

  lemma FreshOutcome(tables: Tables, resource: string, rows: seq<Row>, n: nat, outcome: (Tables, Result<nat, MirrorError>))
    requires resource in tables && tables[resource] == []
    requires outcome == (tables[resource := tables[resource] + rows], Ok(n))
    ensures outcome == (tables[resource := rows], Ok(n))
  {
    assert tables[resource] + rows == rows;
  }

  /** Rows written from strictly increasing records end at the last record's timestamp. */
  lemma WrittenWatermark(catalog: seq<Entity>, resource: string, records: seq<Record>)
    requires records != [] && StrictlyIncreasing(records) && Insertable(catalog, resource, [], records)
    ensures var rows := PageRows(catalog, resource, [], records).rows;
            |rows| == |records| && Watermark(rows, true) == Some(records[|records| - 1].stamp)
  {
    var rows := PageRows(catalog, resource, [], records).rows;
    PageRowsComplete(catalog, resource, [], records);
    WatermarkIs(rows, |records| - 1, records[|records| - 1].stamp);
  }

  /** Into an empty table, the unmirrored records are all the remote's records. */
  lemma FreshMirrorable(catalog: seq<Entity>, remotes: map<string, Remote>, resource: string, tables: Tables, logged: bool)
    requires resource in tables && tables[resource] == [] && resource in remotes
    requires var remote := remotes[resource];
             && StrictlyIncreasing(remote.records) && remote.pageSize > 0 && |remote.records| < U32Limit
             && (logged ==> remote.inlineCount)
             && Insertable(catalog, resource, [], remote.records)
             && forall i :: 0 <= i < |remote.records| ==> remote.records[i].stamp > EpochZero
    ensures Unmirrored(remotes, resource, tables) == remotes[resource].records
    ensures Mirrorable(catalog, remotes, resource, tables, logged)
  {
    assert Watermark(tables[resource], true) == None;
    AboveSplit(remotes[resource].records, EpochZero, 0);
  }

  /** 237 records at 100 per page take four requests. */
  lemma DrainScenario(catalog: seq<Entity>, resource: string, records: seq<Record>, tables: Tables)
    requires |records| == 237 && StrictlyIncreasing(records) && Insertable(catalog, resource, [], records)
    requires forall i :: 0 <= i < |records| ==> records[i].stamp > EpochZero
    requires resource in tables && tables[resource] == []
    ensures var (after, r) := DrainSpec(catalog, map[resource := Remote(records, 100, true)], resource, tables, true);
            && r == Ok(4)
            && resource in after && |after[resource]| == 237
            && Watermark(after[resource], true) == Some(records[236].stamp)
  {
    DrainFresh(catalog, map[resource := Remote(records, 100, true)], resource, tables, true);
    ThreePages();
  }

  lemma ThreePages()
    ensures PageCount(237, 100) == 3
  {
    assert PageCount(37, 100) == 1 + PageCount(0, 100);
    assert PageCount(137, 100) == 1 + PageCount(37, 100);
  }

  /**
   * Two records with the same timestamp split over two pages: the second
   * round asks for records newer than that timestamp and the second record
   * is never mirrored.
   */
  lemma TiedStampIsSkipped()
    ensures var catalog := [Entity("Sag", ["id"], [0])];
            var first := Record(5, map["id" := Number(1)]);
            var second := Record(5, map["id" := Number(2)]);
            var remotes := map["Sag" := Remote([first, second], 1, true)];
            DrainSpec(catalog, remotes, "Sag", map["Sag" := []], false) == (map["Sag" := [Row(5, ["1"])]], Ok(2))
  {
    var catalog := [Entity("Sag", ["id"], [0])];
    var first := Record(5, map["id" := Number(1)]);
    var second := Record(5, map["id" := Number(2)]);
    var records := [first, second];
    var remotes := map["Sag" := Remote(records, 1, true)];
    var empty: Tables := map["Sag" := []];
    assert FindEntity(catalog, "Sag") == Some(catalog[0]);
    assert Serialize(Number(1)) == "1" by {
      assert NatToDecimal(1) == "1";
    }
    assert ["id"][1..] == [];
    assert IsScalar(first.fields["id"]);
    assert BoundValues(["id"], first.fields) == Prepend(["1"], BoundValues([], first.fields));
    assert ["1"] + [] == ["1"];
    assert BoundValues(["id"], first.fields) == Ok(["1"]);
    var row := Row(5, ["1"]);
    assert BuildRow(["id"], first) == Ok(row);
    assert !KeyTaken([0], [], row);
    assert InsertOutcome(catalog, Some([]), "Sag", first) == Ok(row);
    assert Above(records, EpochZero) == records;
    assert GetNext(remotes, "Sag", Watermark(empty["Sag"], true)) == Ok(Page([first], Some("2")));
    assert PageRows(catalog, "Sag", [], [first]) == Written([row], None);
    var once: Tables := map["Sag" := [row]];
    assert ParseU32("2") == Some(2) by {
      ParseU32Decimal(2);
    }
    assert empty["Sag"] + [row] == [row];
    assert empty["Sag" := [row]] == once;
    assert CountText(Page([first], Some("2"))) == "2";
    assert MirrorSpec(catalog, remotes, "Sag", empty, true, false) == (once, Ok(Page([first], Some("2"))));
    assert Watermark(once["Sag"], true) == Some(5);
    assert Above(records, 5) == [];
    assert GetNext(remotes, "Sag", Watermark(once["Sag"], true)) == Ok(Page([], Some("0")));
    assert PageRows(catalog, "Sag", [row], []) == Written([], None);
    assert once["Sag" := once["Sag"] + []] == once;
    assert ParseU32("0") == Some(0) by {
      ParseU32Decimal(0);
    }
    assert MirrorSpec(catalog, remotes, "Sag", once, true, false) == (once, Ok(Page([], Some("0"))));
    DrainStep(catalog, remotes, "Sag", empty, false);
    DrainStep(catalog, remotes, "Sag", once, false);
  }

  /**
   * A record updated after it was mirrored comes back with a newer
   * timestamp and the key it was stored under: its insert violates the
   * primary key, so the round and the drain fail and the table is unchanged.
   */
  lemma UpdatedRecordConflicts()
    ensures var catalog := [Entity("Sag", ["id"], [0])];
            var tables: Tables := map["Sag" := [Row(5, ["1"])]];
            var remotes := map["Sag" := Remote([Record(7, map["id" := Number(1)])], 100, true)];
            && MirrorSpec(catalog, remotes, "Sag", tables, true, false) == (tables, Err(InsertFailed(KeyConflict)))
            && DrainSpec(catalog, remotes, "Sag", tables, false) == (tables, Err(InsertFailed(KeyConflict)))
  {
    var catalog := [Entity("Sag", ["id"], [0])];
    var stored := Row(5, ["1"]);
    var tables: Tables := map["Sag" := [stored]];
    var updated := Record(7, map["id" := Number(1)]);
    var remotes := map["Sag" := Remote([updated], 100, true)];
    assert FindEntity(catalog, "Sag") == Some(catalog[0]);
    assert Serialize(Number(1)) == "1" by {
      assert NatToDecimal(1) == "1";
    }
    assert ["id"][1..] == [];
    assert BoundValues(["id"], updated.fields) == Prepend(["1"], BoundValues([], updated.fields));
    assert ["1"] + [] == ["1"];
    var row := Row(7, ["1"]);
    assert BuildRow(["id"], updated) == Ok(row);
    assert SameKey([0], stored, row);
    assert [stored][0] == stored;
    assert KeyTaken([0], [stored], row);
    assert InsertOutcome(catalog, Some([stored]), "Sag", updated) == Err(KeyConflict);
    assert Watermark([stored], true) == Some(5);
    assert Above([updated], 5) == [updated];
    assert GetNext(remotes, "Sag", Some(5)).Ok?;
    assert GetNext(remotes, "Sag", Some(5)).value.value == [updated];
    assert PageRows(catalog, "Sag", [stored], [updated]) == Written([], Some(KeyConflict));
    assert [stored] + [] == [stored];
    assert tables["Sag" := [stored]] == tables;
    assert MirrorSpec(catalog, remotes, "Sag", tables, true, false) == (tables, Err(InsertFailed(KeyConflict)));
    DrainStep(catalog, remotes, "Sag", tables, false);
  }

  // ---------------------------------------------------------------------
  // One synchronisation cycle

  /**
   * The body of the outer loop of `synchronize` from catalog position
   * `from` on: every entity type in catalog order, Sambehandlinger skipped,
   * each drained before the next; the first error ends it. The result
   * counts the requests.
   */
  function CycleSpec(catalog: seq<Entity>, from: nat, remotes: map<string, Remote>, tables: Tables, logged: bool)
    : (Tables, Result<nat, MirrorError>)
    requires from <= |catalog|
    decreases |catalog| - from
  {
    if from == |catalog| then (tables, Ok(0))
    else if catalog[from].name == Excluded then CycleSpec(catalog, from + 1, remotes, tables, logged)
    else
      var (after, r) := DrainSpec(catalog, remotes, catalog[from].name, tables, logged);
      if r.Err? then (after, r)
      else AddRequests(r.value, CycleSpec(catalog, from + 1, remotes, after, logged))
  }

  /** What is left of a cycle after one more entity type is drained. */
  lemma CycleAdvance(catalog: seq<Entity>, from: nat, remotes: map<string, Remote>, tables: Tables, logged: bool,
                     requests: nat, after: Tables, r: Result<nat, MirrorError>)
    requires from < |catalog| && catalog[from].name != Excluded
    requires (after, r) == DrainSpec(catalog, remotes, catalog[from].name, tables, logged)
    ensures r.Err? ==> AddRequests(requests, CycleSpec(catalog, from, remotes, tables, logged)) == (after, r)
    ensures r.Ok? ==> AddRequests(requests, CycleSpec(catalog, from, remotes, tables, logged))
                      == AddRequests(requests + r.value, CycleSpec(catalog, from + 1, remotes, after, logged))
  {
    if r.Ok? {
      AddRequestsTwice(requests, r.value, CycleSpec(catalog, from + 1, remotes, after, logged));
    }
  }

  /** One iteration of the loop of `synchronize`: drain the i-th entity type of the catalog. */
  method CycleStep(db: Database, catalog: seq<Entity>, remotes: map<string, Remote>, i: nat, logged: bool, requests: nat)
    returns (drained: Result<nat, MirrorError>)
    requires ValidCatalog(catalog) && i < |catalog| && catalog[i].name != Excluded
    modifies db
    ensures drained.Err? ==> AddRequests(requests, CycleSpec(catalog, i, remotes, old(db.tables), logged)) == (db.tables, drained)
    ensures drained.Ok? ==> AddRequests(requests, CycleSpec(catalog, i, remotes, old(db.tables), logged))
                            == AddRequests(requests + drained.value, CycleSpec(catalog, i + 1, remotes, db.tables, logged))
  {
    drained := Drain(db, catalog, remotes, catalog[i].name, logged);
    CycleAdvance(catalog, i, remotes, old(db.tables), logged, requests, db.tables, drained);
  }

  /** One pass of the outer loop of `synchronize`, up to its sleep. */
  method Cycle(db: Database, catalog: seq<Entity>, remotes: map<string, Remote>, logged: bool)
    returns (r: Result<nat, MirrorError>)
    requires ValidCatalog(catalog)
    modifies db
    ensures (db.tables, r) == CycleSpec(catalog, 0, remotes, old(db.tables), logged)
  {
    var requests := 0;
    for i := 0 to |catalog|
      invariant CycleSpec(catalog, 0, remotes, old(db.tables), logged)
                == AddRequests(requests, CycleSpec(catalog, i, remotes, db.tables, logged))
    {
      if catalog[i].name != Excluded {
        var drained := CycleStep(db, catalog, remotes, i, logged, requests);
        if drained.Err? {
          return drained;
        }
        requests := requests + drained.value;
      }
    }
    return Ok(requests);
  }

  /**
   * A cycle never fetches Sambehandlinger: it behaves the same whatever
   * the remote serves for that entity type.
   */
  lemma {:induction false} CycleNeverFetchesExcluded(catalog: seq<Entity>, from: nat, remotes: map<string, Remote>,
                                                     tables: Tables, logged: bool)
    requires from <= |catalog|
    ensures CycleSpec(catalog, from, remotes, tables, logged) == CycleSpec(catalog, from, remotes - {Excluded}, tables, logged)
    decreases |catalog| - from
  {
    if from < |catalog| && catalog[from].name != Excluded {
      DrainReadsOwnRemote(catalog, remotes, remotes - {Excluded}, catalog[from].name, tables, logged);
      var (after, r) := DrainSpec(catalog, remotes, catalog[from].name, tables, logged);
      CycleNeverFetchesExcluded(catalog, from + 1, remotes, after, logged);
    } else if from < |catalog| {
      CycleNeverFetchesExcluded(catalog, from + 1, remotes, tables, logged);
    }
  }

  /** Some entity type of the catalog at or after position `from` has the name. */
  predicate Mentions(catalog: seq<Entity>, from: nat, name: string)
    decreases |catalog| - from
  {
    from < |catalog| && (catalog[from].name == name || Mentions(catalog, from + 1, name))
  }

  /**
   * A cycle only appends rows, and leaves the Sambehandlinger table and
   * every table that no entity type of the cycle names exactly as it was.
   */
  lemma {:induction false} CycleFrame(catalog: seq<Entity>, from: nat, remotes: map<string, Remote>, tables: Tables, logged: bool)
    requires from <= |catalog|
    ensures var after := CycleSpec(catalog, from, remotes, tables, logged).0;
            && after.Keys == tables.Keys
            && (forall n :: n in tables ==> tables[n] <= after[n])
            && (Excluded in tables ==> after[Excluded] == tables[Excluded])
            && (forall n :: n in tables && !Mentions(catalog, from, n) ==> after[n] == tables[n])
    decreases |catalog| - from
  {
    if from < |catalog| {
      if catalog[from].name == Excluded {
        CycleFrame(catalog, from + 1, remotes, tables, logged);
      } else {
        var name := catalog[from].name;
        DrainFrame(catalog, remotes, name, tables, logged);
        var (after, r) := DrainSpec(catalog, remotes, name, tables, logged);
        if r.Ok? {
          CycleFrame(catalog, from + 1, remotes, after, logged);
          var last := CycleSpec(catalog, from + 1, remotes, after, logged).0;
          forall n | n in tables ensures tables[n] <= last[n] {
            PrefixTransitive(tables[n], after[n], last[n]);
          }
        } else {
          forall n | n in tables ensures tables[n] <= after[n] {
            assert n == name || after[n] == tables[n];
          }
        }
      }
    }
  }
}
