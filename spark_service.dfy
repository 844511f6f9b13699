/** The query-binding and catalog layer: option filtering, the table names a
    parsed plan refers to, binding each of them into the process-wide schema
    registry, and the table and column listings read back from it. */
module SparkService {
  import opened Outcomes
  import opened JavaText

  /** A Spark data type, by name ("IntegerType", "StringType", ...). */
  type DataType = string

  /** StructField: a column's name and Spark type. */
  datatype StructField = StructField(name: string, dataType: DataType)

  /** StructType: a dataset's columns in their natural order. */
  type Schema = seq<StructField>

  /** TableSchema, the registry key: a connection path and a table name,
      stored exactly as given. */
  datatype TableSchema = TableSchema(path: string, table: string)

  /** What JdbcUtils.getCommonJDBCType reports for a Spark type. */
  datatype JdbcType = JdbcType(databaseTypeDefinition: string, jdbcNullType: int)

  /** A leaf of a parsed, not yet resolved, logical plan. */
  datatype PlanLeaf = UnresolvedRelation(tableName: string) | OtherLeaf

  /** ConnectionInfo: the storage path, the format's name and the properties. */
  datatype ConnectionInfo = ConnectionInfo(path: string, format: string, properties: map<string, string>)

  /** spark.read().format(f).options(o).load(location): the dataset's schema,
      or None when the engine throws. */
  type Loader = (string, map<string, string>, string) -> Option<Schema>

  /** SupportedFormat.getSparkPath(path, table): where a table's files live. */
  type PathResolver = (string, string) -> string

  /** The exceptions the service raises. */
  datatype ServiceError =
    | DuplicateOptionKey          // IllegalStateException out of Collectors.toMap
    | LoadFailed(table: string)   // the engine could not load the table's dataset
    | NotLoaded(table: string)    // SQLException table + " has not been loaded."
    | UnmappedType(dataType: DataType)  // NoSuchElementException out of Optional.get

  // ---- getOptions ----

  /** The key starts, ignoring case, with the prefix and a dot. */
  predicate HasPrefix(key: string, prefix: string)
  {
    Lower(prefix) + "." <= Lower(key)
  }

  /** The key an option is stored under: unchanged, or without the prefix and its dot. */
  function OptionKey(key: string, prefix: string, keepPrefix: bool): string
    requires HasPrefix(key, prefix)
  {
    if keepPrefix then key else key[|prefix| + 1..]
  }

  /** Two different selected keys would be stored under the same key. */
  predicate KeysCollide(info: map<string, string>, prefix: string, keepPrefix: bool)
  {
    exists k1, k2 :: k1 in info && k2 in info && k1 != k2 && HasPrefix(k1, prefix) && HasPrefix(k2, prefix) &&
      OptionKey(k1, prefix, keepPrefix) == OptionKey(k2, prefix, keepPrefix)
  }

  /** getOptions: the properties whose key has the prefix, stored under
      OptionKey; Collectors.toMap throws when two of them meet on one key. */
  function GetOptions(info: map<string, string>, prefix: string, keepPrefix: bool): (r: Result<map<string, string>, ServiceError>)
    ensures r.Err? <==> KeysCollide(info, prefix, keepPrefix)
    ensures r.Err? ==> r.error == DuplicateOptionKey
    ensures r.Ok? ==> forall k :: k in info && HasPrefix(k, prefix) ==>
      OptionKey(k, prefix, keepPrefix) in r.value && r.value[OptionKey(k, prefix, keepPrefix)] == info[k]
    ensures r.Ok? ==> forall o :: o in r.value ==>
      exists k :: k in info && HasPrefix(k, prefix) && OptionKey(k, prefix, keepPrefix) == o
  {
    if KeysCollide(info, prefix, keepPrefix) then Err(DuplicateOptionKey)
    else Ok(map k | k in info && HasPrefix(k, prefix) :: OptionKey(k, prefix, keepPrefix) := info[k])
  }

  lemma LowerAppend(a: string, b: string)
    ensures Lower(a + b) == Lower(a) + Lower(b)
  {
    assert forall i :: 0 <= i < |a + b| ==> Lower(a + b)[i] == (Lower(a) + Lower(b))[i];
  }

  /** Keeping the prefix never collides: the result is exactly the selected
      properties, keys and values unchanged. */
  lemma KeepPrefixSelects(info: map<string, string>, prefix: string)
    ensures GetOptions(info, prefix, true).Ok?
    ensures forall k :: k in GetOptions(info, prefix, true).value <==> k in info && HasPrefix(k, prefix)
    ensures forall k :: k in GetOptions(info, prefix, true).value ==> GetOptions(info, prefix, true).value[k] == info[k]
  {
    assert !KeysCollide(info, prefix, true);
  }

  /** A stripped key is what follows the prefix (in whatever case the key
      spells it) and its dot. */
  lemma StrippedKeyShape(key: string, prefix: string)
    requires HasPrefix(key, prefix)
    ensures key == key[..|prefix|] + "." + OptionKey(key, prefix, false)
    ensures EqualsIgnoreCase(key[..|prefix|], prefix)
  {
    var n := |prefix|;
    assert Lower(key)[..n + 1] == Lower(prefix) + ".";
    assert LowerChar(key[n]) == '.';
    assert key[n] == '.';
    assert key == key[..n] + [key[n]] + key[n + 1..];
    assert Lower(key[..n]) == Lower(prefix) by {
      forall i | 0 <= i < n ensures Lower(key[..n])[i] == Lower(prefix)[i] {
        assert Lower(key)[i] == (Lower(prefix) + ".")[i];
      }
    }
    EqualsIgnoreCaseIsLowerEquality(key[..n], prefix);
  }

  /** Two keys that differ only in how they spell the prefix ("csv.header"
      and "CSV.header") collide once the prefix is stripped. */
  lemma PrefixCaseCollision(info: map<string, string>, prefix: string, p1: string, p2: string, rest: string)
    requires p1 != p2 && EqualsIgnoreCase(p1, prefix) && EqualsIgnoreCase(p2, prefix)
    requires p1 + "." + rest in info && p2 + "." + rest in info
    ensures GetOptions(info, prefix, false) == Err(DuplicateOptionKey)
    ensures GetOptions(info, prefix, true).Ok?
  {
    var k1, k2 := p1 + "." + rest, p2 + "." + rest;
    EqualsIgnoreCaseIsLowerEquality(p1, prefix);
    EqualsIgnoreCaseIsLowerEquality(p2, prefix);
    LowerAppend(p1 + ".", rest);
    LowerAppend(p2 + ".", rest);
    LowerAppend(p1, ".");
    LowerAppend(p2, ".");
    assert HasPrefix(k1, prefix) && HasPrefix(k2, prefix);
    assert k1[..|p1|] == p1 && k2[..|p2|] == p2;
    assert k1 != k2;
    assert OptionKey(k1, prefix, false) == rest == OptionKey(k2, prefix, false);
    KeepPrefixSelects(info, prefix);
  }

  // ---- getRelations ----

  /** The name a leaf contributes: its table name, or "" for any other leaf. */
  function RelationName(leaf: PlanLeaf): string
  {
    match leaf
    case UnresolvedRelation(t) => t
    case OtherLeaf => ""
  }

  /** getRelations: the set of names the plan's leaves contribute. */
  function Relations(leaves: seq<PlanLeaf>): (r: set<string>)
    ensures forall t :: t in r <==> UnresolvedRelation(t) in leaves || (t == "" && OtherLeaf in leaves)
    ensures |r| <= |leaves|
  {
    if leaves == [] then {}
    else
      var rest := Relations(leaves[1..]);
      assert forall x :: x in leaves <==> x == leaves[0] || x in leaves[1..];
      {RelationName(leaves[0])} + rest
  }

  /** A table referred to again adds nothing. */
  lemma RepeatedReferenceCollapses(leaves: seq<PlanLeaf>, leaf: PlanLeaf)
    requires leaf in leaves
    ensures Relations(leaves + [leaf]) == Relations(leaves)
  {
    var all := leaves + [leaf];
    forall t ensures t in Relations(all) <==> t in Relations(leaves) {
      assert UnresolvedRelation(t) in all <==> UnresolvedRelation(t) in leaves;
      assert OtherLeaf in all <==> OtherLeaf in leaves;
    }
  }

  /** A plan whose leaves are all table references gives exactly its distinct
      table names, spelled as written. */
  lemma TableLeavesGiveNames(names: seq<string>)
    ensures Relations(seq(|names|, i requires 0 <= i < |names| => UnresolvedRelation(names[i]))) ==
            set i | 0 <= i < |names| :: names[i]
  {
    var leaves := seq(|names|, i requires 0 <= i < |names| => UnresolvedRelation(names[i]));
    forall t ensures t in Relations(leaves) <==> t in set i | 0 <= i < |names| :: names[i] {
      if t in set i | 0 <= i < |names| :: names[i] {
        var i :| 0 <= i < |names| && names[i] == t;
        assert leaves[i] == UnresolvedRelation(t);
      }
      if UnresolvedRelation(t) in leaves {
        var i :| 0 <= i < |leaves| && leaves[i] == UnresolvedRelation(t);
        assert names[i] == t;
      }
      assert OtherLeaf !in leaves;
    }
  }

  // ---- prepareTempView ----

  /** The load prepareTempView performs for one table: format name lower-cased,
      the format's options, and the format's location for the table. */
  function LoadTable(info: ConnectionInfo, options: map<string, string>, load: Loader, sparkPath: PathResolver, table: string): Option<Schema>
  {
    load(Lower(info.format), options, sparkPath(info.path, table))
  }

  /** after is before with (path, t) set to t's loaded schema for every t in
      done, whatever was there, and nothing else changed. */
  ghost predicate Bound(before: map<TableSchema, Schema>, after: map<TableSchema, Schema>, info: ConnectionInfo,
                  options: map<string, string>, load: Loader, sparkPath: PathResolver, done: set<string>)
  {
    && (forall t :: t in done ==>
          (TableSchema(info.path, t) in after &&
           Some(after[TableSchema(info.path, t)]) == LoadTable(info, options, load, sparkPath, t)))
    && (forall k :: k in after <==> k in before || (k.path == info.path && k.table in done))
    && (forall k :: k in before && !(k.path == info.path && k.table in done) ==> after[k] == before[k])
  }

  /** One more table loaded and put keeps Bound, with the table added. */
  lemma BoundStep(before: map<TableSchema, Schema>, after: map<TableSchema, Schema>, info: ConnectionInfo,
                  options: map<string, string>, load: Loader, sparkPath: PathResolver, done: set<string>,
                  t: string, schema: Schema)
    requires Bound(before, after, info, options, load, sparkPath, done)
    requires LoadTable(info, options, load, sparkPath, t) == Some(schema)
    ensures Bound(before, after[TableSchema(info.path, t) := schema], info, options, load, sparkPath, done + {t})
  {
  }

  /** Binding the same tables again with the same datasets changes nothing:
      every entry is overwritten with the schema it already holds. */
  lemma RebindingChangesNothing(a: map<TableSchema, Schema>, b: map<TableSchema, Schema>, c: map<TableSchema, Schema>,
                                info: ConnectionInfo, options: map<string, string>, load: Loader, sparkPath: PathResolver,
                                tables: set<string>)
    requires Bound(a, b, info, options, load, sparkPath, tables)
    requires Bound(b, c, info, options, load, sparkPath, tables)
    ensures c == b
  {
    forall k | k in c ensures k in b && c[k] == b[k] {
      if k.path == info.path && k.table in tables {
        assert TableSchema(info.path, k.table) == k;
      }
    }
  }

  // ---- the rows of getTables and getColumns ----

  /** A column of a result header; every column is created nullable. */
  datatype ColumnType = StringType | IntegerType
  datatype Column = Column(name: string, columnType: ColumnType)
  datatype Value = StringValue(s: string) | IntValue(i: int)

  /** A Dataset<Row> built by createDataFrame: a header and its rows. */
  datatype Frame = Frame(header: seq<Column>, rows: seq<seq<Value>>)

  predicate Conforms(v: Value, t: ColumnType)
  {
    match t
    case StringType => v.StringValue?
    case IntegerType => v.IntValue?
  }

  /** Every row has one value per column, of the column's type. */
  predicate WellFormed(f: Frame)
  {
    forall row :: row in f.rows ==>
      |row| == |f.header| && forall i :: 0 <= i < |row| ==> Conforms(row[i], f.header[i].columnType)
  }

  const TablesHeader: seq<Column> := [
    Column("TABLE_NAME", StringType), Column("TABLE_TYPE", StringType),
    Column("TABLE_SCHEM", StringType), Column("TABLE_CAT", StringType)]

  const ColumnsHeader: seq<Column> := [
    Column("TABLE_CAT", StringType), Column("TABLE_SCHEM", StringType),
    Column("TABLE_NAME", StringType), Column("COLUMN_NAME", StringType),
    Column("DATA_TYPE", IntegerType), Column("TYPE_NAME", StringType)]

  /** The getTables row of a table: its name, then three blanks. */
  function TableRow(table: string): (row: seq<Value>)
    ensures |row| == |TablesHeader|
    ensures forall i :: 0 <= i < |row| ==> Conforms(row[i], TablesHeader[i].columnType)
  {
    [StringValue(table), StringValue(""), StringValue(""), StringValue("")]
  }

  /** The getColumns row of a field: blank catalog and schema, the table name
      the caller asked for, the field's name, its JDBC code and type name. */
  function ColumnRow(table: string, field: StructField, jdbc: JdbcType): (row: seq<Value>)
    ensures |row| == |ColumnsHeader|
    ensures forall i :: 0 <= i < |row| ==> Conforms(row[i], ColumnsHeader[i].columnType)
  {
    [StringValue(""), StringValue(""), StringValue(table), StringValue(field.name),
     IntValue(jdbc.jdbcNullType), StringValue(jdbc.databaseTypeDefinition)]
  }

  /** The registry's keys in the order its entry set is walked, each once. */
  ghost predicate Enumerates(order: seq<TableSchema>, keys: set<TableSchema>)
  {
    && (forall i, j :: 0 <= i < j < |order| ==> order[i] != order[j])
    && (forall k :: k in order <==> k in keys)
  }

  /** The keys stored under the connection's path, ignoring case. */
  function MatchingKeys(keys: set<TableSchema>, path: string): set<TableSchema>
  {
    set k | k in keys && EqualsIgnoreCase(k.path, path)
  }

  /** getTables' stream: keep the keys whose path equals the connection's
      ignoring case, and make each one's row. */
  function TableRows(order: seq<TableSchema>, path: string): (rows: seq<seq<Value>>)
    ensures |rows| <= |order|
    ensures forall row :: row in rows ==> |row| == |TablesHeader|
  {
    if order == [] then []
    else (if EqualsIgnoreCase(order[0].path, path) then [TableRow(order[0].table)] else [])
         + TableRows(order[1..], path)
  }

  lemma {:induction false} TableRowsCount(order: seq<TableSchema>, path: string)
    requires forall i, j :: 0 <= i < j < |order| ==> order[i] != order[j]
    ensures |TableRows(order, path)| == |set k | k in order && EqualsIgnoreCase(k.path, path)|
  {
    if order != [] {
      var tail := order[1..];
      TableRowsCount(tail, path);
      var s := set k | k in order && EqualsIgnoreCase(k.path, path);
      var t := set k | k in tail && EqualsIgnoreCase(k.path, path);
      assert order[0] !in tail by {
        forall j | 0 <= j < |tail| ensures tail[j] != order[0] { assert tail[j] == order[j + 1]; }
      }
      if EqualsIgnoreCase(order[0].path, path) {
        assert s == t + {order[0]};
      } else {
        assert s == t;
      }
    }
  }

  /** Key k is listed by getTables under path with row `row`. */
  predicate ListsRow(k: TableSchema, path: string, row: seq<Value>)
  {
    EqualsIgnoreCase(k.path, path) && TableRow(k.table) == row
  }

  lemma {:induction false} TableRowsMultiplicity(order: seq<TableSchema>, path: string, row: seq<Value>)
    requires forall i, j :: 0 <= i < j < |order| ==> order[i] != order[j]
    ensures multiset(TableRows(order, path))[row] == |set k | k in order && ListsRow(k, path, row)|
  {
    if order != [] {
      TableRowsMultiplicity(order[1..], path, row);
      HeadRowCount(order, path, row);
      ListingKeysStep(order, path, row);
    }
  }

  /** Among distinct keys, the first one counts once, when it lists the row,
      on top of the rest. */
  lemma ListingKeysStep(order: seq<TableSchema>, path: string, row: seq<Value>)
    requires order != []
    requires forall i, j :: 0 <= i < j < |order| ==> order[i] != order[j]
    ensures |set k | k in order && ListsRow(k, path, row)| ==
      (if ListsRow(order[0], path, row) then 1 else 0) + |set k | k in order[1..] && ListsRow(k, path, row)|
  {
    var tail := order[1..];
    var s := set k | k in order && ListsRow(k, path, row);
    var t := set k | k in tail && ListsRow(k, path, row);
    assert order[0] !in tail by {
      forall j | 0 <= j < |tail| ensures tail[j] != order[0] { assert tail[j] == order[j + 1]; }
    }
    assert forall k :: k in order <==> k == order[0] || k in tail;
    if ListsRow(order[0], path, row) {
      assert s == t + {order[0]};
    } else {
      assert s == t;
    }
  }

  /** The first key adds its row once, when it matches, to the rest's rows. */
  lemma HeadRowCount(order: seq<TableSchema>, path: string, row: seq<Value>)
    requires order != []
    ensures multiset(TableRows(order, path))[row] ==
      (if EqualsIgnoreCase(order[0].path, path) && TableRow(order[0].table) == row then 1 else 0)
      + multiset(TableRows(order[1..], path))[row]
  {
    var head := if EqualsIgnoreCase(order[0].path, path) then [TableRow(order[0].table)] else [];
    assert TableRows(order, path) == head + TableRows(order[1..], path);
    assert multiset(TableRows(order, path)) == multiset(head) + multiset(TableRows(order[1..], path));
  }

  lemma {:induction false} TableRowsMembers(order: seq<TableSchema>, path: string)
    ensures forall row :: row in TableRows(order, path) <==>
      exists k :: k in order && EqualsIgnoreCase(k.path, path) && row == TableRow(k.table)
  {
    if order != [] {
      TableRowsMembers(order[1..], path);
      forall row ensures row in TableRows(order, path) <==>
        exists k :: k in order && EqualsIgnoreCase(k.path, path) && row == TableRow(k.table)
      {
        if row in TableRows(order, path) && row !in TableRows(order[1..], path) {
          assert row == TableRow(order[0].table);
        }
        if exists k :: k in order && EqualsIgnoreCase(k.path, path) && row == TableRow(k.table) {
          var k :| k in order && EqualsIgnoreCase(k.path, path) && row == TableRow(k.table);
          if k != order[0] { assert k in order[1..]; }
        }
      }
    }
  }

  /** getTables lists one row per registry key under the connection's path
      (ignoring case) and no row for a key under another path. */
  lemma TableRowsMeaning(order: seq<TableSchema>, keys: set<TableSchema>, path: string)
    requires Enumerates(order, keys)
    ensures |TableRows(order, path)| == |MatchingKeys(keys, path)|
    ensures forall row :: row in TableRows(order, path) <==>
      exists k :: k in MatchingKeys(keys, path) && row == TableRow(k.table)
    ensures forall row ::
      (multiset(TableRows(order, path))[row] == |set k | k in MatchingKeys(keys, path) && TableRow(k.table) == row|)
  {
    TableRowsCount(order, path);
    TableRowsMembers(order, path);
    assert (set k | k in order && EqualsIgnoreCase(k.path, path)) == MatchingKeys(keys, path);
    forall row ensures multiset(TableRows(order, path))[row] ==
      |set k | k in MatchingKeys(keys, path) && TableRow(k.table) == row|
    {
      RowMultiplicity(order, keys, path, row);
    }
  }

  lemma RowMultiplicity(order: seq<TableSchema>, keys: set<TableSchema>, path: string, row: seq<Value>)
    requires Enumerates(order, keys)
    ensures multiset(TableRows(order, path))[row] ==
      |set k | k in MatchingKeys(keys, path) && TableRow(k.table) == row|
  {
    TableRowsMultiplicity(order, path, row);
    assert (set k | k in order && ListsRow(k, path, row)) ==
           (set k | k in MatchingKeys(keys, path) && TableRow(k.table) == row);
  }

  /** Where getColumns' findFirst stops: the first key matching path and table
      ignoring case, or |order|. */
  function FirstMatch(order: seq<TableSchema>, path: string, table: string): (i: nat)
    ensures i <= |order|
    ensures forall j :: 0 <= j < i ==> !(EqualsIgnoreCase(order[j].path, path) && EqualsIgnoreCase(order[j].table, table))
    ensures i < |order| ==> EqualsIgnoreCase(order[i].path, path) && EqualsIgnoreCase(order[i].table, table)
  {
    if order == [] then 0
    else if EqualsIgnoreCase(order[0].path, path) && EqualsIgnoreCase(order[0].table, table) then 0
    else 1 + FirstMatch(order[1..], path, table)
  }

  /** getColumns fails with "not loaded" exactly when no registry key matches
      both the path and the table, ignoring case. */
  lemma NotLoadedMeaning(order: seq<TableSchema>, keys: set<TableSchema>, path: string, table: string)
    requires Enumerates(order, keys)
    ensures FirstMatch(order, path, table) == |order| <==>
      forall k :: k in keys ==> !(EqualsIgnoreCase(k.path, path) && EqualsIgnoreCase(k.table, table))
  {
    var i := FirstMatch(order, path, table);
    if i == |order| {
      forall k | k in keys ensures !(EqualsIgnoreCase(k.path, path) && EqualsIgnoreCase(k.table, table)) {
        var j :| 0 <= j < |order| && order[j] == k;
      }
    } else {
      assert order[i] in keys;
    }
  }

  /** The first field the type table cannot map, or |fields|. */
  function FirstUnmapped(fields: Schema, jdbcType: DataType -> Option<JdbcType>): (i: nat)
    ensures i <= |fields|
    ensures forall j :: 0 <= j < i ==> jdbcType(fields[j].dataType).Some?
    ensures i < |fields| ==> jdbcType(fields[i].dataType).None?
  {
    if fields == [] || jdbcType(fields[0].dataType).None? then 0
    else 1 + FirstUnmapped(fields[1..], jdbcType)
  }

  // ---- the registry and the service ----

  /** The static metaData map: one per process, shared by every service. */
  class SchemaRegistry {
    var metaData: map<TableSchema, Schema>

    constructor ()
      ensures metaData == map[]
    {
      metaData := map[];
    }

    /** metaData.put: insert, or overwrite whatever the key held. */
    method Put(key: TableSchema, schema: Schema)
      modifies this
      ensures metaData == old(metaData)[key := schema]
    {
      metaData := metaData[key := schema];
    }
  }

  class Service {
    const connectionInfo: ConnectionInfo
    const registry: SchemaRegistry

    constructor (info: ConnectionInfo, registry: SchemaRegistry)
      ensures connectionInfo == info && this.registry == registry
    {
      connectionInfo := info;
      this.registry := registry;
    }

    /** prepareTempView: compute the format's options (prefix stripped), then
        for every name the plan refers to, in the set's own order, load the
        dataset and put (path, name) -> schema into the registry, whether or
        not it was there. A failing load stops the walk with the earlier
        tables already recorded. */
    method PrepareTempView(leaves: seq<PlanLeaf>, load: Loader, sparkPath: PathResolver)
      returns (r: Result<(), ServiceError>, ghost recorded: set<string>)
      modifies registry
      ensures var opts := GetOptions(connectionInfo.properties, connectionInfo.format, false);
        opts.Err? ==> r == Err(DuplicateOptionKey) && registry.metaData == old(registry.metaData)
      ensures var opts := GetOptions(connectionInfo.properties, connectionInfo.format, false);
        opts.Ok? ==>
          && recorded <= Relations(leaves)
          && Bound(old(registry.metaData), registry.metaData, connectionInfo, opts.value, load, sparkPath, recorded)
          && (r.Ok? <==> forall t :: t in Relations(leaves) ==> LoadTable(connectionInfo, opts.value, load, sparkPath, t).Some?)
          && (r.Ok? ==> recorded == Relations(leaves))
          && (r.Err? ==> r.error.LoadFailed? && r.error.table in Relations(leaves) - recorded &&
                         LoadTable(connectionInfo, opts.value, load, sparkPath, r.error.table).None?)
    {
      recorded := {};
      var options := GetOptions(connectionInfo.properties, connectionInfo.format, false);
      if options.Err? {
        return Err(DuplicateOptionKey), recorded;
      }
      var tables := Relations(leaves);
      var remaining := tables;
      while remaining != {}
        invariant remaining <= tables && recorded == tables - remaining
        invariant Bound(old(registry.metaData), registry.metaData, connectionInfo, options.value, load, sparkPath, recorded)
        invariant forall t :: t in recorded ==> LoadTable(connectionInfo, options.value, load, sparkPath, t).Some?
        decreases remaining
      {
        var table :| table in remaining;
        var ds := load(Lower(connectionInfo.format), options.value, sparkPath(connectionInfo.path, table));
        if ds.None? {
          return Err(LoadFailed(table)), recorded;
        }
        BoundStep(old(registry.metaData), registry.metaData, connectionInfo, options.value, load, sparkPath, recorded, table, ds.value);
        registry.Put(TableSchema(connectionInfo.path, table), ds.value);
        remaining := remaining - {table};
        recorded := recorded + {table};
      }
      return Ok(()), recorded;
    }

    /** getTables: the registry keys under this connection's path. */
    function GetTables(order: seq<TableSchema>): (f: Frame)
      reads this, registry
      requires Enumerates(order, registry.metaData.Keys)
      ensures f.header == TablesHeader && WellFormed(f)
      ensures |f.rows| == |MatchingKeys(registry.metaData.Keys, connectionInfo.path)|
      ensures forall row :: row in f.rows <==>
        exists k :: k in MatchingKeys(registry.metaData.Keys, connectionInfo.path) && row == TableRow(k.table)
      ensures forall row ::
        (multiset(f.rows)[row] == |set k | k in MatchingKeys(registry.metaData.Keys, connectionInfo.path) && TableRow(k.table) == row|)
    {
      TableRowsMeaning(order, registry.metaData.Keys, connectionInfo.path);
      Frame(TablesHeader, TableRows(order, connectionInfo.path))
    }

    /** getColumns: the schema of the first key matching this path and the
        table ignoring case, one row per field in field order, or the
        "not loaded" error; a field whose type has no JDBC mapping throws. */
    method GetColumns(table: string, order: seq<TableSchema>, jdbcType: DataType -> Option<JdbcType>)
      returns (r: Result<Frame, ServiceError>)
      requires Enumerates(order, registry.metaData.Keys)
      ensures var i := FirstMatch(order, connectionInfo.path, table);
        i == |order| ==> r == Err(NotLoaded(table))
      ensures var i := FirstMatch(order, connectionInfo.path, table);
        i < |order| ==>
          var fields := registry.metaData[order[i]];
          var u := FirstUnmapped(fields, jdbcType);
          && (u < |fields| ==> r == Err(UnmappedType(fields[u].dataType)))
          && (u == |fields| ==>
                && r.Ok? && r.value.header == ColumnsHeader && WellFormed(r.value)
                && |r.value.rows| == |fields|
                && forall j :: 0 <= j < |fields| ==>
                     r.value.rows[j] == ColumnRow(table, fields[j], jdbcType(fields[j].dataType).value))
    {
      var found := FirstMatch(order, connectionInfo.path, table);
      if found == |order| {
        return Err(NotLoaded(table));
      }
      var fields := registry.metaData[order[found]];
      var columns: seq<seq<Value>> := [];
      var i := 0;
      while i < |fields|
        invariant 0 <= i <= |fields|
        invariant forall j :: 0 <= j < i ==> jdbcType(fields[j].dataType).Some?
        invariant |columns| == i
        invariant forall j :: 0 <= j < i ==> columns[j] == ColumnRow(table, fields[j], jdbcType(fields[j].dataType).value)
      {
        var jdbc := jdbcType(fields[i].dataType);
        if jdbc.None? {
          return Err(UnmappedType(fields[i].dataType));
        }
        columns := columns + [ColumnRow(table, fields[i], jdbc.value)];
        i := i + 1;
      }
      return Ok(Frame(ColumnsHeader, columns));
    }
  }

  // ---- binding, then reading back ----

  /** After a table is bound, getTables under that path lists it. */
  lemma BoundTableIsListed(before: map<TableSchema, Schema>, after: map<TableSchema, Schema>, info: ConnectionInfo,
                           options: map<string, string>, load: Loader, sparkPath: PathResolver,
                           done: set<string>, t: string, order: seq<TableSchema>)
    requires Bound(before, after, info, options, load, sparkPath, done) && t in done
    requires Enumerates(order, after.Keys)
    ensures TableRow(t) in TableRows(order, info.path)
  {
    var k := TableSchema(info.path, t);
    assert k in after;
    assert EqualsIgnoreCase(info.path, info.path);
    assert k in MatchingKeys(after.Keys, info.path);
    TableRowsMeaning(order, after.Keys, info.path);
  }

  /** After a table is bound, getColumns for it under that path finds a key;
      it is never "not loaded". */
  lemma BoundTableIsDescribed(before: map<TableSchema, Schema>, after: map<TableSchema, Schema>, info: ConnectionInfo,
                              options: map<string, string>, load: Loader, sparkPath: PathResolver,
                              done: set<string>, t: string, order: seq<TableSchema>)
    requires Bound(before, after, info, options, load, sparkPath, done) && t in done
    requires Enumerates(order, after.Keys)
    ensures FirstMatch(order, info.path, t) < |order|
  {
    var k := TableSchema(info.path, t);
    assert k in after;
    assert EqualsIgnoreCase(info.path, info.path) && EqualsIgnoreCase(t, t);
    NotLoadedMeaning(order, after.Keys, info.path, t);
  }
}
