/**
 * The row writer of the mirror: it looks an entity type up in the catalog,
 * builds the parameterised INSERT statement from the catalog's ordered
 * column list, serialises the scalar JSON values of a fetched record and
 * binds one of them to each placeholder of the statement.
 *
 * The SQLite database is abstract: a map from table name to the sequence
 * of rows inserted into it. A row keeps the bound texts in catalog order
 * and the record's update timestamp (its `opdateringsdato`) as a natural.
 */
module RowWriter {
  import opened Wrappers
  import opened Text

  /** A JSON value as the remote's records carry it; numbers are integers here. */
  datatype Json =
    | Null
    | Bool(b: bool)
    | Number(n: int)
    | Str(s: string)
    | Array(items: seq<Json>)
    | Object(members: map<string, Json>)

  predicate IsScalar(v: Json) {
    !v.Array? && !v.Object?
  }

  /**
   * The text bound for a scalar value: "NULL", "true"/"false", the number's
   * decimal text, or the string itself. Arrays and objects never reach it.
   */
  function Serialize(v: Json): (text: string)
    requires IsScalar(v)
    ensures v.Null? ==> text == "NULL"
    ensures v.Bool? ==> text == (if v.b then "true" else "false")
    ensures v.Number? ==> ParseInt(text) == Some(v.n) && CanonicalDecimal(text)
    ensures v.Str? ==> text == v.s
  {
    match v
    case Null => "NULL"
    case Bool(b) => if b then "true" else "false"
    case Number(n) => IntDecimalRoundTrip(n); IntDecimalCanonical(n); IntToDecimal(n)
    case Str(s) => s
  }

  // ---------------------------------------------------------------------
  // The catalog

  /**
   * One entity type of the catalog: its name, its ordered column names and
   * the positions, among those columns, of its primary-key columns.
   */
  datatype Entity = Entity(name: string, columns: seq<string>, key: seq<nat>)

  predicate Distinct(xs: seq<string>) {
    forall i, j :: 0 <= i < j < |xs| ==> xs[i] != xs[j]
  }

  /** The generated catalog: names without delimiters, no column named twice, key positions among the columns. */
  predicate ValidCatalog(catalog: seq<Entity>) {
    forall i :: 0 <= i < |catalog| ==>
      && IsName(catalog[i].name)
      && Distinct(catalog[i].columns)
      && (forall j :: 0 <= j < |catalog[i].columns| ==> IsName(catalog[i].columns[j]))
      && forall j :: 0 <= j < |catalog[i].key| ==> catalog[i].key[j] < |catalog[i].columns|
  }

  /** The first catalog entity with the given name. */
  function FindEntity(catalog: seq<Entity>, name: string): Option<Entity> {
    if catalog == [] then None
    else if catalog[0].name == name then Some(catalog[0])
    else FindEntity(catalog[1..], name)
  }

  /** The lookup fails exactly for an unknown name and otherwise finds the first entity of that name. */
  lemma {:induction false} FindEntityMeaning(catalog: seq<Entity>, name: string)
    ensures var r := FindEntity(catalog, name);
            && (r.None? <==> forall i :: 0 <= i < |catalog| ==> catalog[i].name != name)
            && (r.Some? ==> exists i :: 0 <= i < |catalog| && catalog[i].name == name
                                        && catalog[i] == r.value
                                        && forall j :: 0 <= j < i ==> catalog[j].name != name)
  {
    if catalog != [] && catalog[0].name != name {
      var rest := catalog[1..];
      FindEntityMeaning(rest, name);
      var r := FindEntity(rest, name);
      forall i | 0 <= i < |rest| ensures rest[i] == catalog[i + 1] {
      }
      if r.Some? {
        var i :| 0 <= i < |rest| && rest[i].name == name && rest[i] == r.value
                 && forall j :: 0 <= j < i ==> rest[j].name != name;
        forall j | 0 <= j < i + 1 ensures catalog[j].name != name {
          if j > 0 {
            assert catalog[j] == rest[j - 1];
          }
        }
      }
    }
  }

  lemma FoundEntityIsValid(catalog: seq<Entity>, name: string)
    requires ValidCatalog(catalog)
    requires FindEntity(catalog, name).Some?
    ensures var entity := FindEntity(catalog, name).value;
            && IsName(name) && entity.name == name
            && Distinct(entity.columns)
            && (forall j :: 0 <= j < |entity.columns| ==> IsName(entity.columns[j]))
            && forall j :: 0 <= j < |entity.key| ==> entity.key[j] < |entity.columns|
  {
    FindEntityMeaning(catalog, name);
  }

  // ---------------------------------------------------------------------
  // The insert statement

  /** The named parameters of the statement, one per column, in column order. */
  function Placeholders(columns: seq<string>): (ps: seq<string>)
    ensures |ps| == |columns|
    ensures forall i :: 0 <= i < |columns| ==> ps[i] == ":" + columns[i]
  {
    if columns == [] then [] else [":" + columns[0]] + Placeholders(columns[1..])
  }

  const InsertKeyword := "INSERT INTO "
  const ValuesKeyword := " VALUES("

  /** INSERT INTO T(c1, c2, ...) VALUES(:c1, :c2, ...) */
  function InsertStatement(table: string, columns: seq<string>): string {
    InsertKeyword + table + "(" + Join(columns) + ")" + ValuesKeyword + Join(Placeholders(columns)) + ")"
  }

  /** What a reader of an insert statement sees in it. */
  datatype InsertParts = InsertParts(table: string, columns: seq<string>, parameters: seq<string>)

  function StripPrefix(s: string, prefix: string): Option<string> {
    if |prefix| <= |s| && s[..|prefix|] == prefix then Some(s[|prefix|..]) else None
  }

  /** The text before and after the first `c`, if there is one. */
  function CutAt(s: string, c: char): Option<(string, string)> {
    var k := IndexOf(s, c);
    if k == |s| then None else Some((s[..k], s[k + 1..]))
  }

  lemma StripPrefixOf(prefix: string, rest: string)
    ensures StripPrefix(prefix + rest, prefix) == Some(rest)
  {
    assert (prefix + rest)[..|prefix|] == prefix;
    assert (prefix + rest)[|prefix|..] == rest;
  }

  lemma CutAtOf(before: string, c: char, after: string)
    requires c !in before
    ensures CutAt(before + [c] + after, c) == Some((before, after))
  {
    IndexOfFirst(before, c, after);
    assert (before + [c] + after)[..|before|] == before;
    assert (before + [c] + after)[|before| + 1..] == after;
  }

  /** Reads table, column list and parameter list back out of an insert statement. */
  function ParseInsert(s: string): Option<InsertParts> {
    match StripPrefix(s, InsertKeyword)
    case None => None
    case Some(afterKeyword) =>
      match CutAt(afterKeyword, '(')
      case None => None
      case Some((table, afterTable)) =>
        match CutAt(afterTable, ')')
        case None => None
        case Some((columns, afterColumns)) =>
          match StripPrefix(afterColumns, ValuesKeyword)
          case None => None
          case Some(values) =>
            if values == [] || values[|values| - 1] != ')' then None
            else Some(InsertParts(table, Split(columns), Split(values[..|values| - 1])))
  }

  /** Reading a statement of the generated shape gives back its three parts. */
  lemma ParseInsertShape(table: string, cols: string, vals: string)
    requires '(' !in table && ')' !in cols
    ensures ParseInsert(InsertKeyword + table + "(" + cols + ")" + ValuesKeyword + vals + ")")
            == Some(InsertParts(table, Split(cols), Split(vals)))
  {
    var values := vals + ")";
    var afterColumns := ValuesKeyword + values;
    var afterTable := cols + [')'] + afterColumns;
    var afterKeyword := table + ['('] + afterTable;
    assert InsertKeyword + table + "(" + cols + ")" + ValuesKeyword + vals + ")" == InsertKeyword + afterKeyword;
    StripPrefixOf(InsertKeyword, afterKeyword);
    CutAtOf(table, '(', afterTable);
    CutAtOf(cols, ')', afterColumns);
    StripPrefixOf(ValuesKeyword, values);
    assert values[..|values| - 1] == vals;
  }

  /**
   * The statement names the table, lists the columns in catalog order and
   * has one placeholder per column, the i-th being ':' and the i-th column.
   */
  lemma InsertStatementRoundTrip(table: string, columns: seq<string>)
    requires IsName(table)
    requires forall i :: 0 <= i < |columns| ==> IsName(columns[i])
    ensures ParseInsert(InsertStatement(table, columns)) == Some(InsertParts(table, columns, Placeholders(columns)))
  {
    var ps := Placeholders(columns);
    assert '(' !in table;
    forall i | 0 <= i < |columns| ensures IsField(columns[i]) && ')' !in columns[i] {
      assert ',' !in columns[i];
    }
    JoinAvoids(columns, ')');
    ParseInsertShape(table, Join(columns), Join(ps));
    SplitJoin(columns);
    forall i | 0 <= i < |ps| ensures IsField(ps[i]) {
      assert ps[i] == ":" + columns[i];
      assert ',' !in columns[i];
    }
    SplitJoin(ps);
  }

  /** SQLite's parameter lookup: the 1-based position of the first parameter with this name. */
  function ParameterIndex(parameters: seq<string>, name: string): (r: Option<nat>)
    ensures r.None? <==> name !in parameters
    ensures r.Some? ==> 1 <= r.value <= |parameters| && parameters[r.value - 1] == name
                        && forall j :: 0 <= j < r.value - 1 ==> parameters[j] != name
  {
    if parameters == [] then None
    else if parameters[0] == name then Some(1)
    else
      match ParameterIndex(parameters[1..], name)
      case None => None
      case Some(k) => Some(k + 1)
  }

  /** With distinct columns, the placeholder of the i-th column is parameter i + 1. */
  lemma ColumnParameterIndex(columns: seq<string>, i: nat)
    requires Distinct(columns) && i < |columns|
    ensures ParameterIndex(Placeholders(columns), ":" + columns[i]) == Some(i + 1)
  {
    var ps := Placeholders(columns);
    var name := ":" + columns[i];
    assert ps[i] == name;
    var k := ParameterIndex(ps, name).value - 1;
    assert ps[k] == ":" + columns[k];
    PrefixCancels(":", columns[k], columns[i]);
    assert k <= i;
    assert !(k < i);
  }

  /** A common prefix can be removed from both sides of an equality of strings. */
  lemma PrefixCancels(p: string, x: string, y: string)
    requires p + x == p + y
    ensures x == y
  {
    assert x == (p + x)[|p|..];
  }

  // ---------------------------------------------------------------------
  // Binding a record

  datatype InsertError =
    | UnknownEntity          // get_entity_by_name finds no such entity type
    | SyntaxError            // preparing fails: with no columns the statement reads `INSERT INTO T() VALUES()`
    | NoSuchTable            // preparing the statement fails: the table does not exist
    | MissingColumn(column: string)  // the record has no value for a catalog column
    | NonScalar(column: string)      // the value is an array or an object
    | KeyConflict            // executing the statement violates the primary key

  /** Puts already bound values in front of the outcome of binding the rest. */
  function Prepend(values: seq<string>, r: Result<seq<string>, InsertError>): Result<seq<string>, InsertError> {
    match r
    case Ok(rest) => Ok(values + rest)
    case Err(e) => Err(e)
  }

  predicate Bindable(fields: map<string, Json>, column: string) {
    column in fields && IsScalar(fields[column])
  }

  /** Column k is the first column that cannot be bound, and e says why. */
  predicate FirstUnbindable(columns: seq<string>, fields: map<string, Json>, k: int, e: InsertError) {
    && 0 <= k < |columns|
    && (forall j :: 0 <= j < k ==> Bindable(fields, columns[j]))
    && !Bindable(fields, columns[k])
    && e == (if columns[k] !in fields then MissingColumn(columns[k]) else NonScalar(columns[k]))
  }

  /** The values bound for a record, column by column in catalog order. */
  function BoundValues(columns: seq<string>, fields: map<string, Json>): Result<seq<string>, InsertError> {
    if columns == [] then Ok([])
    else if columns[0] !in fields then Err(MissingColumn(columns[0]))
    else if !IsScalar(fields[columns[0]]) then Err(NonScalar(columns[0]))
    else Prepend([Serialize(fields[columns[0]])], BoundValues(columns[1..], fields))
  }

  /**
   * Binding succeeds exactly when every catalog column has a scalar value,
   * and then binds one serialised value per column, in catalog order;
   * otherwise it reports the first column that has no value or a
   * non-scalar one.
   */
  lemma {:induction false} BoundValuesMeaning(columns: seq<string>, fields: map<string, Json>)
    ensures BoundValues(columns, fields).Ok? <==> forall i :: 0 <= i < |columns| ==> Bindable(fields, columns[i])
    ensures BoundValues(columns, fields).Ok? ==>
              |BoundValues(columns, fields).value| == |columns|
              && forall i :: 0 <= i < |columns| ==>
                   Bindable(fields, columns[i]) && BoundValues(columns, fields).value[i] == Serialize(fields[columns[i]])
    ensures BoundValues(columns, fields).Err? ==> exists k :: FirstUnbindable(columns, fields, k, BoundValues(columns, fields).error)
  {
    if columns == [] {
    } else if columns[0] !in fields {
      assert FirstUnbindable(columns, fields, 0, MissingColumn(columns[0]));
    } else if !IsScalar(fields[columns[0]]) {
      assert FirstUnbindable(columns, fields, 0, NonScalar(columns[0]));
    } else {
      var rest := BoundValues(columns[1..], fields);
      BoundValuesMeaning(columns[1..], fields);
      forall i | 0 <= i < |columns| - 1 ensures columns[1..][i] == columns[i + 1] {
      }
      if rest.Err? {
        var k :| FirstUnbindable(columns[1..], fields, k, rest.error);
        forall j | 0 <= j < k + 1 ensures Bindable(fields, columns[j]) {
          if j > 0 {
            assert columns[j] == columns[1..][j - 1];
          }
        }
        assert FirstUnbindable(columns, fields, k + 1, rest.error);
      } else {
        forall i | 0 <= i < |columns| ensures Bindable(fields, columns[i]) {
          if i > 0 {
            assert columns[i] == columns[1..][i - 1];
          }
        }
      }
    }
  }

  /**
   * `stmt.parameter_index(":" + column).unwrap()`: the lookup finds the
   * placeholder of the i-th column at position i + 1.
   */
  method ParameterOfColumn(columns: seq<string>, parameters: seq<string>, i: nat) returns (index: nat)
    requires Distinct(columns) && parameters == Placeholders(columns) && i < |columns|
    ensures index == i + 1
  {
    ColumnParameterIndex(columns, i);
    index := ParameterIndex(parameters, ":" + columns[i]).value;
  }

  lemma PrependNothing(r: Result<seq<string>, InsertError>)
    ensures Prepend([], r) == r
  {
    if r.Ok? {
      assert [] + r.value == r.value;
    }
  }

  /** Binding from column i on, after the columns before it were bound. */
  lemma BindStep(columns: seq<string>, fields: map<string, Json>, i: nat, bound: seq<string>)
    requires i < |columns|
    ensures Bindable(fields, columns[i]) ==>
              Prepend(bound, BoundValues(columns[i..], fields))
              == Prepend(bound + [Serialize(fields[columns[i]])], BoundValues(columns[i + 1..], fields))
    ensures columns[i] !in fields ==>
              Prepend(bound, BoundValues(columns[i..], fields)) == Err(MissingColumn(columns[i]))
    ensures columns[i] in fields && !IsScalar(fields[columns[i]]) ==>
              Prepend(bound, BoundValues(columns[i..], fields)) == Err(NonScalar(columns[i]))
  {
    assert columns[i..][0] == columns[i] && columns[i..][1..] == columns[i + 1..];
    if Bindable(fields, columns[i]) {
      var rest := BoundValues(columns[i + 1..], fields);
      if rest.Ok? {
        assert bound + ([Serialize(fields[columns[i]])] + rest.value) == bound + [Serialize(fields[columns[i]])] + rest.value;
      }
    }
  }

  /**
   * The binding loop of `insert`: for each catalog column, look its
   * placeholder up among the statement's parameters and bind the
   * serialised value of the record's field to that parameter.
   */
  method BindParameters(columns: seq<string>, parameters: seq<string>, fields: map<string, Json>)
    returns (r: Result<seq<string>, InsertError>)
    requires Distinct(columns) && parameters == Placeholders(columns)
    ensures r == BoundValues(columns, fields)
  {
    var slots := new string[|parameters|];
    var i := 0;
    assert columns[0..] == columns;
    assert slots[..0] == [];
    PrependNothing(BoundValues(columns, fields));
    while i < |columns|
      invariant 0 <= i <= |columns|
      invariant BoundValues(columns, fields) == Prepend(slots[..i], BoundValues(columns[i..], fields))
    {
      var index := ParameterOfColumn(columns, parameters, i);
      BindStep(columns, fields, i, slots[..i]);
      if columns[i] !in fields {
        return Err(MissingColumn(columns[i]));
      }
      var value := fields[columns[i]];
      if !IsScalar(value) {
        return Err(NonScalar(columns[i]));
      }
      ghost var bound := slots[..i];
      slots[index - 1] := Serialize(value);
      assert slots[..i] == bound && slots[i] == Serialize(value);
      assert slots[..i + 1] == slots[..i] + [slots[i]];
      i := i + 1;
    }
    assert columns[i..] == [];
    assert slots[..] == slots[..i] + [];
    return Ok(slots[..]);
  }

  // ---------------------------------------------------------------------
  // The database

  /** A fetched record: its update timestamp and its JSON fields. */
  datatype Record = Record(stamp: nat, fields: map<string, Json>)

  /** A stored row: the record's update timestamp and the bound texts in column order. */
  datatype Row = Row(stamp: nat, values: seq<string>)

  type Tables = map<string, seq<Row>>

  /** The rows of a table, or None when no such table exists. */
  function Stored(tables: Tables, table: string): Option<seq<Row>> {
    if table in tables then Some(tables[table]) else None
  }

  /** Two rows collide on a primary key: the key is non-empty and they agree at every key position. */
  predicate SameKey(key: seq<nat>, a: Row, b: Row) {
    && key != []
    && forall j :: 0 <= j < |key| ==> key[j] < |a.values| && key[j] < |b.values| && a.values[key[j]] == b.values[key[j]]
  }

  /** Some stored row already holds the key of the new row. */
  predicate KeyTaken(key: seq<nat>, stored: seq<Row>, row: Row) {
    exists n :: 0 <= n < |stored| && SameKey(key, stored[n], row)
  }

  /** The row a record binds to against the columns, or why it cannot be bound. */
  function BuildRow(columns: seq<string>, record: Record): Result<Row, InsertError> {
    match BoundValues(columns, record.fields)
    case Ok(values) => Ok(Row(record.stamp, values))
    case Err(e) => Err(e)
  }

  /**
   * What inserting one record into the stored rows of a table (None when
   * the table is missing) yields: the new row, or why `insert` fails.
   */
  function InsertOutcome(catalog: seq<Entity>, stored: Option<seq<Row>>, table: string, record: Record): Result<Row, InsertError> {
    match FindEntity(catalog, table)
    case None => Err(UnknownEntity)
    case Some(entity) =>
      if entity.columns == [] then Err(SyntaxError)
      else if stored.None? then Err(NoSuchTable)
      else
        match BuildRow(entity.columns, record)
        case Err(e) => Err(e)
        case Ok(row) => if KeyTaken(entity.key, stored.value, row) then Err(KeyConflict) else Ok(row)
  }

  /**
   * An insert fails on an unknown entity type, then on an entity type
   * without columns (its statement does not parse), then on a missing table,
   * then on the first column that cannot be bound, and last on a stored
   * row that already holds the new row's primary key. Otherwise it yields
   * the row of the record's timestamp and its serialised column values.
   */
  lemma InsertOutcomeMeaning(catalog: seq<Entity>, stored: Option<seq<Row>>, table: string, record: Record)
    ensures var o := InsertOutcome(catalog, stored, table, record);
            var found := FindEntity(catalog, table);
            && (o == Err(UnknownEntity) <==> found.None?)
            && (o == Err(SyntaxError) <==> found.Some? && found.value.columns == [])
            && (o == Err(NoSuchTable) <==> found.Some? && found.value.columns != [] && stored.None?)
            && (found.Some? && found.value.columns != [] && stored.Some? && BoundValues(found.value.columns, record.fields).Err? ==>
                  o == Err(BoundValues(found.value.columns, record.fields).error))
            && (o.Ok? <==> found.Some? && found.value.columns != [] && stored.Some?
                           && (forall i :: 0 <= i < |found.value.columns| ==> Bindable(record.fields, found.value.columns[i]))
                           && BuildRow(found.value.columns, record).Ok?
                           && forall n :: 0 <= n < |stored.value| ==> !SameKey(found.value.key, stored.value[n], BuildRow(found.value.columns, record).value))
            && (o == Err(KeyConflict) ==> && found.Some? && found.value.columns != [] && stored.Some? && BuildRow(found.value.columns, record).Ok?
                                          && exists n :: 0 <= n < |stored.value| && SameKey(found.value.key, stored.value[n], BuildRow(found.value.columns, record).value))
            && (o.Ok? ==> && o.value.stamp == record.stamp
                          && |o.value.values| == |found.value.columns|
                          && forall i :: 0 <= i < |found.value.columns| ==> o.value.values[i] == Serialize(record.fields[found.value.columns[i]]))
  {
    var found := FindEntity(catalog, table);
    if found.Some? {
      BoundValuesMeaning(found.value.columns, record.fields);
      var bound := BoundValues(found.value.columns, record.fields);
      if bound.Err? {
        var k :| FirstUnbindable(found.value.columns, record.fields, k, bound.error);
      }
    }
  }

  /** An entity type without columns yields `INSERT INTO T() VALUES()`, which does not prepare. */
  lemma EmptyEntityFails()
    ensures ValidCatalog([Entity("T", [], [])])
    ensures InsertStatement("T", []) == "INSERT INTO T() VALUES()"
    ensures InsertOutcome([Entity("T", [], [])], Some([]), "T", Record(1, map[])) == Err(SyntaxError)
  {
  }

  class Database {
    var tables: Tables

    constructor (tables: Tables)
      ensures this.tables == tables
    {
      this.tables := tables;
    }

    /**
     * `insert`: prepares the statement of the record's entity type, binds
     * every catalog column and executes it, appending one row unless a
     * stored row already holds the row's primary key.
     */
    method Insert(catalog: seq<Entity>, table: string, record: Record) returns (r: Result<nat, InsertError>)
      requires ValidCatalog(catalog)
      modifies this
      ensures var outcome := InsertOutcome(catalog, Stored(old(tables), table), table, record);
              && r == (if outcome.Ok? then Ok(1) else Err(outcome.error))
              && tables == (if outcome.Ok? then old(tables)[table := old(tables)[table] + [outcome.value]] else old(tables))
    {
      var found := FindEntity(catalog, table);
      if found.None? {
        return Err(UnknownEntity);
      }
      var entity := found.value;
      var statement := InsertStatement(table, entity.columns);
      // conn.prepare(): an empty column list is a syntax error, a missing table an unknown name
      if entity.columns == [] {
        return Err(SyntaxError);
      }
      if table !in tables {
        return Err(NoSuchTable);
      }
      FoundEntityIsValid(catalog, table);
      InsertStatementRoundTrip(table, entity.columns);
      var parameters := ParseInsert(statement).value.parameters;
      var bound := BindParameters(entity.columns, parameters, record.fields);
      if bound.Err? {
        return Err(bound.error);
      }
      var row := Row(record.stamp, bound.value);
      // stmt.raw_execute(): the primary key rejects a second row with the same key
      if KeyTaken(entity.key, tables[table], row) {
        return Err(KeyConflict);
      }
      tables := tables[table := tables[table] + [row]];
      return Ok(1);
    }
  }
}
